/** One observation of the GitHub API rate limit, with a reset instant corrected
    for the skew between the local clock and the server's clock
    (src/main/java/org/kohsuke/github/GHRateLimit.java). */
module RateLimit {
  import opened JavaLong

  /** What reading the server's `Date` response header yields. The header is an
      RFC 1123 date-time (section 5.2.14 of RFC 1123); parsing it is a library
      call, so only its three possible outcomes are modelled. */
  datatype DateHeader =
    | NoHeader                         // null or blank: no server time at all
    | Malformed                        // not blank, but the RFC 1123 parse throws
    | ServerTime(epochSeconds: int64)  // parsed: the server's clock, in epoch seconds

  /** Limit and remaining count of the placeholder snapshot. */
  const PLACEHOLDER_COUNT: int32 := 1000000
  /** How far ahead the placeholder's window resets, in seconds. */
  const ONE_HOUR_SECONDS: int64 := 60 * 60

  /** The "now" that the server's distance to reset is measured from: the
      server's clock when the header parsed, otherwise the local capture time. */
  function ReferenceSeconds(createdAtEpochSeconds: int64, updatedAt: DateHeader): int64 {
    if updatedAt.ServerTime? then updatedAt.epochSeconds else createdAtEpochSeconds
  }

  /** The skew-corrected reset instant in milliseconds: the local capture time
      plus the server's own distance to reset, as the `long` it denotes. */
  function ResetInstantMillis(resetEpochSeconds: int64, createdAtEpochSeconds: int64,
                              updatedAt: DateHeader): int64
  {
    var secondsUntilReset :=
      resetEpochSeconds as int - ReferenceSeconds(createdAtEpochSeconds, updatedAt) as int;
    Wrap64((createdAtEpochSeconds as int + secondsUntilReset) * 1000)
  }

  /** The placeholder's reset time: one hour after the given clock reading, in
      epoch seconds. */
  function PlaceholderResetSeconds(clockMillis: int64): (s: int64)
    ensures s as int == MillisToSeconds(clockMillis) as int + 3600
  {
    LongAdd(MillisToSeconds(clockMillis), ONE_HOUR_SECONDS)
  }

  /** Java `long` arithmetic in the order the reset date is computed agrees with
      the formula evaluated exactly and wrapped once. */
  lemma JavaStepsAgree(resetEpochSeconds: int64, createdAtEpochSeconds: int64, reference: int64)
    ensures LongMul(LongAdd(createdAtEpochSeconds, LongSub(resetEpochSeconds, reference)), 1000)
         == Wrap64((createdAtEpochSeconds as int + (resetEpochSeconds as int - reference as int)) * 1000)
  {
    var reset, created, ref := resetEpochSeconds as int, createdAtEpochSeconds as int, reference as int;
    var exact := created + (reset - ref);
    var untilReset := LongSub(resetEpochSeconds, reference);
    var sum := LongAdd(createdAtEpochSeconds, untilReset);
    assert Congruent(untilReset as int, reset - ref);
    CongruentPlus(untilReset as int, reset - ref, created);
    assert Congruent(sum as int, created + untilReset as int);
    CongruentTrans(sum as int, created + untilReset as int, exact);
    CongruentTimes(sum as int, exact, 1000);
    WrapOfCongruent(sum as int * 1000, exact * 1000);
    assert LongMul(sum, 1000) == Wrap64(sum as int * 1000);
  }

  /** The values `equals` compares, which are also what `hashCode` hashes. */
  datatype EqualityKey = EqualityKey(remaining: int32, limit: int32,
                                     resetEpochSeconds: int64, resetDateMillis: int64)

  class GHRateLimit {
    const remainingCount: int32
    const limitCount: int32
    const resetEpochSeconds: int64
    /** Local clock reading at creation, in epoch seconds. */
    const createdAtEpochSeconds: int64
    /** The calculated reset instant, as a `Date`'s millisecond count. */
    var resetDate: int64
    /** The header the current resetDate was calculated from. */
    ghost var lastUpdatedAt: DateHeader

    /** resetDate is always the skew-corrected reset for the last header given. */
    ghost predicate Valid()
      reads this
    {
      resetDate == ResetInstantMillis(resetEpochSeconds, createdAtEpochSeconds, lastUpdatedAt)
    }

    /** The four-argument constructor; nowMillis is the clock reading taken when
        the instance is created. */
    constructor (limit: int32, remaining: int32, resetEpochSeconds: int64,
                 updatedAt: DateHeader, nowMillis: int64)
      ensures Valid() && lastUpdatedAt == updatedAt
      ensures GetLimit() == limit && GetRemaining() == remaining
      ensures GetResetEpochSeconds() == resetEpochSeconds
      ensures createdAtEpochSeconds == MillisToSeconds(nowMillis)
      ensures resetDate == ResetInstantMillis(resetEpochSeconds, MillisToSeconds(nowMillis), updatedAt)
    {
      this.createdAtEpochSeconds := MillisToSeconds(nowMillis);
      this.limitCount := limit;
      this.remainingCount := remaining;
      this.resetEpochSeconds := resetEpochSeconds;
      new;
      this.resetDate := RecalculateResetDate(updatedAt);
    }

    /** The three-argument constructor: no `Date` header. */
    constructor WithoutDateHeader(limit: int32, remaining: int32, resetEpochSeconds: int64,
                                  nowMillis: int64)
      ensures Valid() && lastUpdatedAt == NoHeader
      ensures GetLimit() == limit && GetRemaining() == remaining
      ensures GetResetEpochSeconds() == resetEpochSeconds
      ensures createdAtEpochSeconds == MillisToSeconds(nowMillis)
      ensures resetDate == Wrap64(resetEpochSeconds as int * 1000)
    {
      this.createdAtEpochSeconds := MillisToSeconds(nowMillis);
      this.limitCount := limit;
      this.remainingCount := remaining;
      this.resetEpochSeconds := resetEpochSeconds;
      new;
      this.resetDate := RecalculateResetDate(NoHeader);
    }

    /** A snapshot that does not expire for about an hour. clockMillis is the
        reading the factory takes; createdMillis the one the new instance takes. */
    static method GetPlaceholder(clockMillis: int64, createdMillis: int64) returns (r: GHRateLimit)
      ensures fresh(r) && r.Valid() && r.lastUpdatedAt == NoHeader
      ensures r.GetLimit() == PLACEHOLDER_COUNT && r.GetRemaining() == PLACEHOLDER_COUNT
      ensures r.GetResetEpochSeconds() as int == MillisToSeconds(clockMillis) as int + 3600
      ensures r.createdAtEpochSeconds == MillisToSeconds(createdMillis)
    {
      r := new GHRateLimit.WithoutDateHeader(PLACEHOLDER_COUNT, PLACEHOLDER_COUNT,
                                             PlaceholderResetSeconds(clockMillis), createdMillis);
    }

    /** Recomputes and stores the reset instant from the given header and returns
        it. Only resetDate (and the ghost record of the header) changes. */
    method RecalculateResetDate(updatedAt: DateHeader) returns (d: int64)
      modifies this`resetDate, this`lastUpdatedAt
      ensures d == resetDate && lastUpdatedAt == updatedAt && Valid()
      ensures resetDate == Wrap64((createdAtEpochSeconds as int
                                   + (resetEpochSeconds as int
                                      - ReferenceSeconds(createdAtEpochSeconds, updatedAt) as int)) * 1000)
    {
      var updatedAtEpochSeconds := createdAtEpochSeconds;
      if updatedAt != NoHeader {
        if updatedAt.ServerTime? {
          updatedAtEpochSeconds := updatedAt.epochSeconds;
        }
        // otherwise the parse exception is caught and only logged
      }
      var calculatedSecondsUntilReset := LongSub(resetEpochSeconds, updatedAtEpochSeconds);
      resetDate := LongMul(LongAdd(createdAtEpochSeconds, calculatedSecondsUntilReset), 1000);
      lastUpdatedAt := updatedAt;
      d := resetDate;
      JavaStepsAgree(resetEpochSeconds, createdAtEpochSeconds, updatedAtEpochSeconds);
    }

    function GetRemaining(): int32 {
      remainingCount
    }

    function GetLimit(): int32 {
      limitCount
    }

    /** The raw reset time the server reported, uncorrected. */
    function GetResetEpochSeconds(): int64 {
      resetEpochSeconds
    }

    /** The corrected reset instant. A Dafny integer is a value, so the copy Java's
        `getResetDate` returns (`new Date(resetDate.getTime())`) is implicit: a
        caller cannot alter resetDate through it. */
    function GetResetDate(): (d: int64)
      reads this
      requires Valid()
      ensures d == ResetInstantMillis(resetEpochSeconds, createdAtEpochSeconds, lastUpdatedAt)
    {
      resetDate
    }

    /** Whether the reset instant lies strictly before nowMillis, the clock reading. */
    function IsExpired(nowMillis: int64): (expired: bool)
      reads this
      requires Valid()
      ensures expired <==>
        ResetInstantMillis(resetEpochSeconds, createdAtEpochSeconds, lastUpdatedAt) < nowMillis
    {
      GetResetDate() < nowMillis
    }

    function Key(): EqualityKey
      reads this
      requires Valid()
    {
      EqualityKey(GetRemaining(), GetLimit(), GetResetEpochSeconds(), GetResetDate())
    }

    /** Value equality. A null o stands for both `null` and an object of another
        class, neither of which can be equal. */
    function Equals(o: GHRateLimit?): (eq: bool)
      reads this, o
      requires Valid() && (o != null ==> o.Valid())
      ensures eq <==> o != null && GetRemaining() == o.GetRemaining()
                      && GetLimit() == o.GetLimit()
                      && GetResetEpochSeconds() == o.GetResetEpochSeconds()
                      && ResetInstantMillis(resetEpochSeconds, createdAtEpochSeconds, lastUpdatedAt)
                         == ResetInstantMillis(o.resetEpochSeconds, o.createdAtEpochSeconds, o.lastUpdatedAt)
    {
      if this == o then true
      else if o == null then false
      else Key() == o.Key()
    }
  }
}
