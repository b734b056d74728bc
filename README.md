# GHRateLimit in Dafny

A model of `GHRateLimit`, the GitHub API client's record of one rate-limit observation.
It holds the call ceiling, the calls remaining and the server's reset time in epoch seconds.
It also holds the local capture time and one field that can change: the reset instant.
That instant is corrected for skew between the local clock and the server's clock.

The reset instant is computed as follows:
- The code takes a reference "now": the server's `Date` header when it parses, otherwise the local capture time.
- It subtracts that reference from the reset time.
- It adds the difference to the local capture time and stores the result in milliseconds.

Files:
- `java_long.dfy` (module `JavaLong`) covers Java's `int` and `long`. It has the wrap-around behaviour of `+`, `-` and `*` on `long`, plus the truncating `/ 1000`. It also has the congruence-modulo-2^64 lemmas showing that wrapping at each step gives the same result as wrapping once at the end.
- `gh_rate_limit.dfy` (module `RateLimit`) holds:
  - the three outcomes of reading the `Date` header;
  - the reference definitions every contract leans on: `ReferenceSeconds`, the choice of reference "now" (lines 117-127), and `ResetInstantMillis`, the closed-form reset instant (lines 131-132);
  - the class `GHRateLimit`. Its `final` fields are `const` fields, and `resetDate` is a `var`. A ghost field records which header `resetDate` was last computed from, and `Valid()` ties the two together.
- `rate_limit_properties.dfy` (module `RateLimitProperties`) holds the properties: the fallback, the skew correction, expiry, the placeholder's window and equality.

Modelling choices:
- A Java `Date` is its millisecond count, an `int64`.
- The clock is a parameter:
  - the constructors take the reading `System.currentTimeMillis()` would return when the field `createdAtEpochSeconds` is initialised;
  - `GetPlaceholder` takes two readings, the one it uses itself and the one the new instance takes;
  - `IsExpired` takes the reading it compares against.
- RFC 1123 parsing of the `Date` header (section 5.2.14 of RFC 1123) and `StringUtils.isBlank` are library calls. They become `DateHeader`:
  - `NoHeader` for a null or blank string;
  - `Malformed` for a string whose parse throws;
  - `ServerTime(s)` for a parsed server clock `s` in epoch seconds.
- `long` arithmetic wraps modulo 2^64, as Java's does. Every exact formula below is stated under the condition that its value fits in a `long`.

## Model

| member | source | states |
|---|---|---|
| `RateLimit.GHRateLimit.constructor` | src/main/java/org/kohsuke/github/GHRateLimit.java:99-103 | With a `Date` header: the accessors return exactly the given limit, remaining count and reset time. The capture time is the clock reading truncated to seconds. The reset instant is the skew-corrected one for the given header. |
| `RateLimit.GHRateLimit.WithoutDateHeader` | src/main/java/org/kohsuke/github/GHRateLimit.java:90-95 | Without a header: the accessors echo the arguments, and the reset instant is the reset time times 1000 (as a `long`). |
| `RateLimit.GHRateLimit.RecalculateResetDate` | src/main/java/org/kohsuke/github/GHRateLimit.java:116-133 | Returns the value it stores. Only `resetDate` and its ghost record of the header change. The stored value is `(created + (reset - reference)) * 1000`, where the reference is the server time when the header parsed and the capture time otherwise. Java's step-by-step `long` arithmetic is proved to agree with this formula. |
| `RateLimit.GHRateLimit.GetResetDate` | src/main/java/org/kohsuke/github/GHRateLimit.java:177-179 | Returns the skew-corrected reset instant for the header last given. As a function it cannot change state, so two successive reads return the same value. |
| `RateLimit.GHRateLimit.IsExpired` | src/main/java/org/kohsuke/github/GHRateLimit.java:167-169 | True exactly when the corrected reset instant is strictly before the given clock reading. |
| `RateLimit.GHRateLimit.Equals` | src/main/java/org/kohsuke/github/GHRateLimit.java:192-204 | True exactly when the other object is non-null and remaining, limit, reset time and reset instant all agree. The identity shortcut does not change the answer. |
| `RateLimit.GHRateLimit.GetPlaceholder` | src/main/java/org/kohsuke/github/GHRateLimit.java:82-88 | Returns a fresh snapshot with limit = remaining = 1000000 and no header. Its reset time is the factory's clock reading in seconds plus 3600. |
| `RateLimit.PlaceholderResetSeconds` | src/main/java/org/kohsuke/github/GHRateLimit.java:83-86 | The `long` addition of one hour to the truncated clock reading never overflows. |
| `RateLimit.JavaStepsAgree` | src/main/java/org/kohsuke/github/GHRateLimit.java:131-132 | The wrapping subtraction, addition and multiplication, in Java's order, equal the exact formula wrapped once. |
| `JavaLong.Wrap64` | src/main/java/org/kohsuke/github/GHRateLimit.java:132 | The `long` a mathematical integer denotes. It is congruent to the integer modulo 2^64, and equal to it when in range. |
| `JavaLong.LongAdd` | src/main/java/org/kohsuke/github/GHRateLimit.java:132 | Java `long` `+`: congruent to the sum, and exact when the sum fits. |
| `JavaLong.LongSub` | src/main/java/org/kohsuke/github/GHRateLimit.java:131 | Java `long` `-`: congruent to the difference, and exact when it fits. |
| `JavaLong.LongMul` | src/main/java/org/kohsuke/github/GHRateLimit.java:132 | Java `long` `*`: congruent to the product, and exact when it fits. |
| `JavaLong.MillisToSeconds` | src/main/java/org/kohsuke/github/GHRateLimit.java:68 | Java `ms / 1000`: truncates toward zero, so the remainder has the sign of `ms` and is under 1000 in size. |
| `RateLimitProperties.NoHeaderGivesServerReset` | src/main/java/org/kohsuke/github/GHRateLimit.java:117-118 | Without a header the capture time cancels out, and the reset instant is `reset * 1000`. |
| `RateLimitProperties.MalformedFallsBack` | src/main/java/org/kohsuke/github/GHRateLimit.java:119-126 | A header that fails to parse gives exactly the no-header result. |
| `RateLimitProperties.ServerTimeReset` | src/main/java/org/kohsuke/github/GHRateLimit.java:121 | With server time `S`, the reset instant is `(created + reset - S) * 1000`. |
| `RateLimitProperties.DistanceToResetPreserved` | src/main/java/org/kohsuke/github/GHRateLimit.java:129-132 | The estimate lies as many whole seconds after local capture as the server's reset lies after the server's clock. |
| `RateLimitProperties.SkewShiftsEstimate` | src/main/java/org/kohsuke/github/GHRateLimit.java:129-132 | A server clock `k` seconds ahead moves the estimate `k` seconds before the raw reset time. A server clock behind moves it after. |
| `RateLimitProperties.SkewExample` | src/main/java/org/kohsuke/github/GHRateLimit.java:131-132 | Captured at `t`, reset at `t+100`, server clock at `t+50`: the instant is `(t+50) * 1000`. |
| `RateLimitProperties.CaptureTimeIrrelevantWithoutServerTime` | src/main/java/org/kohsuke/github/GHRateLimit.java:117-132 | Without a parsed server time, the capture time does not affect the estimate. |
| `RateLimitProperties.EstimateBoundsForAnySkew` | src/main/java/org/kohsuke/github/GHRateLimit.java:129-132 | With the server's clock any amount ahead of or behind the local one, the estimate is less than one second before the real reset, measured on the local clock, and less than the latency plus one second after it. |
| `RateLimitProperties.EstimateNeverEarlyForWholeSecondSkew` | src/main/java/org/kohsuke/github/GHRateLimit.java:129-132 | When the skew is a whole number of seconds, the estimate is never before the real reset, and late by less than the response's latency plus one second. This is the "accurate or slightly late" that the comment at lines 129-130 promises, to the second. |
| `RateLimitProperties.EstimateEarlyForSubSecondSkew` | src/main/java/org/kohsuke/github/GHRateLimit.java:129-132 | The local clock 500 ms ahead and no latency, with the reset at 100 s: the estimate is 100000 ms, 500 ms before the real reset at local 100500 ms. |
| `RateLimitProperties.EstimateLateByTruncation` | src/main/java/org/kohsuke/github/GHRateLimit.java:129-132 | The clocks agree, the header is stamped at local 999 ms and the snapshot captured at 1000 ms, with the reset at 100 s: the estimate is 101000 ms, 1000 ms after the real reset for 1 ms of latency. |
| `RateLimitProperties.ExpiryIsMonotone` | src/main/java/org/kohsuke/github/GHRateLimit.java:167-169 | A snapshot that is expired at one reading stays expired at every later reading. |
| `RateLimitProperties.ExpiryAtResetInstant` | src/main/java/org/kohsuke/github/GHRateLimit.java:167-169 | A snapshot is not expired at its reset instant, and is expired one millisecond later. |
| `RateLimitProperties.PlaceholderResetInstant` | src/main/java/org/kohsuke/github/GHRateLimit.java:82-88 | The placeholder's reset instant is `(clock seconds + 3600) * 1000`. |
| `RateLimitProperties.PlaceholderNotExpiredWithinHour` | src/main/java/org/kohsuke/github/GHRateLimit.java:84-86 | The placeholder is not expired at any reading up to 3599001 ms after the factory's clock reading. |
| `RateLimitProperties.PlaceholderExpiresBeforeFullHour` | src/main/java/org/kohsuke/github/GHRateLimit.java:84-86 | Made at 999 ms, the placeholder is already expired at 3600001 ms, before a full hour has passed. |
| `RateLimitProperties.EqualsReflexive` | src/main/java/org/kohsuke/github/GHRateLimit.java:192-195 | Every snapshot equals itself. |
| `RateLimitProperties.EqualsSymmetric` | src/main/java/org/kohsuke/github/GHRateLimit.java:199-203 | `a.Equals(b)` holds exactly when `b.Equals(a)` does. |
| `RateLimitProperties.EqualsTransitive` | src/main/java/org/kohsuke/github/GHRateLimit.java:199-203 | Equality is transitive. |
| `RateLimitProperties.NotEqualToNull` | src/main/java/org/kohsuke/github/GHRateLimit.java:196-198 | No snapshot equals null. |
| `RateLimitProperties.DifferentRemainingUnequal` | src/main/java/org/kohsuke/github/GHRateLimit.java:200 | Snapshots that differ in the remaining count are unequal. |
| `RateLimitProperties.SameObservationEqual` | src/main/java/org/kohsuke/github/GHRateLimit.java:192-204 | Snapshots with the same arguments, header and capture second are equal. |
| `RateLimitProperties.EqualWithoutServerTime` | src/main/java/org/kohsuke/github/GHRateLimit.java:192-204 | Without a parsed server time, the same counts and reset time give equal snapshots, whenever each was captured. |
| `RateLimitProperties.CaptureTimeMattersWithServerTime` | src/main/java/org/kohsuke/github/GHRateLimit.java:121-132 | With the same parsed server time, snapshots captured in different seconds have different reset instants and are unequal. |
| `RateLimitProperties.EqualGivesEqualHashInputs` | src/main/java/org/kohsuke/github/GHRateLimit.java:207-209 | Equal snapshots give the same four values to the hash. |

Four behaviours of the code worth knowing:
- **The reset instant can change after construction.** `recalculateResetDate` can run again and overwrites `resetDate` (GHRateLimit.java:132). The model keeps that method; when it runs, only `resetDate` and its ghost record of the header change.
- **The placeholder's hour is not a full hour.** It is counted from the clock reading truncated to whole seconds (lines 68 and 86). So the placeholder is only guaranteed unexpired for 3599.001 s, as `PlaceholderNotExpiredWithinHour` states and `PlaceholderExpiresBeforeFullHour` shows.
- **With a parsed server time, the capture second matters for equality.** Two snapshots built from identical arguments and the same parsed `Date` header are unequal if they were captured in different seconds, because the reset instant is anchored to the capture time. `CaptureTimeMattersWithServerTime` states this. Without a server time the capture time cancels out (`EqualWithoutServerTime`).
- **The estimate is pessimistic only to the second.** The comment at lines 129-130 promises a reset date that is accurate or errs slightly late. The local capture time is truncated to whole seconds (line 68), and the `Date` header read at line 121 already carries the server's clock in whole seconds. The distance to reset is taken between these two truncated values. So with a sub-second skew the estimate can fall up to (not including) one second before the real reset. Whatever the skew, it is later than the real reset by less than the response's latency plus one second. `EstimateBoundsForAnySkew` proves both bounds. `EstimateNeverEarlyForWholeSecondSkew` proves that a whole-second skew makes the estimate never early and late by less than the latency plus one second. `EstimateEarlyForSubSecondSkew` gives a case 500 ms early, and `EstimateLateByTruncation` a case 1000 ms late for 1 ms of latency.

## Left out

- Parsing the `Date` header is not reproduced. This covers the RFC 1123 parser (`ZonedDateTime.parse`, `DateTimeFormatter.RFC_1123_DATE_TIME`) and `StringUtils.isBlank`. They are library calls, so `DateHeader` stands for their outcome.
- Logging of a malformed header (`LOGGER`, lines 123-125 and 211) is left out. It is a diagnostic side effect only.
- `System.currentTimeMillis()` is left out, because it is ambient clock input. It becomes explicit millisecond parameters.
- The deprecated public fields `remaining`, `limit` and `reset` (lines 31-48 and 106-108) are left out. They are legacy mirrors of the private fields. Line 108 builds `reset` from seconds as though they were milliseconds.
- `toString` is left out; it only formats. `hashCode` is not computed either: `Key` gives the four values it hashes.
- The Jackson and FindBugs annotations are left out. They are serialization and tooling metadata.
- `RateLimit.GHRateLimit.Equals` types its argument as `GHRateLimit?`. `null` stands for both `null` and an object of another class, which the `getClass` test rejects in the same way. Subclass instances are not modelled.
- RateLimit.GHRateLimit.RecalculateResetDate: in the code the returned `Date` is the stored field `resetDate` itself (line 132), not a copy. A same-package caller that mutates it (`setTime`) changes `resetDate` and can break the relation `Valid()` states. The model returns an `int64` value, so this alias and any mutation through it are not modelled.
