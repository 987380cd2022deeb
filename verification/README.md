# ScythePlugin core utilities, modelled in Dafny

This project models the self-contained utilities of the ScythePlugin Minecraft
plugin and proves properties of them:

- **RateLimiter**: a non-blocking token bucket. Tokens accrue at a fixed rate
  per nanosecond up to a burst ceiling. A request is admitted, and pays, only
  when enough tokens are stored.
- **ExpiringCache**: a TTL cache with lazy expiry. A read that finds a stale
  entry removes it. On a miss, a loader or supplier fills the entry.
- **Try**: a retry loop with exponential backoff, jitter and a 30 s cap, plus
  its value-returning variant.
- **Platform**: a dotted version comparison. Shorter versions are padded with
  zero segments, and a segment that does not parse counts as 0. `atLeast`
  drops the build suffix of the server version first.
- **VersionChecks.isAtLeast**: the major/minor gate on the Bukkit version
  string.
- **Services**: a registry of service implementations by type, plus a table
  of shared rate limiters created on first use by name.

Every component is single-threaded here. Inputs that the Java code reads from
the environment become arguments:

- the monotonic clock becomes `now`, in nanoseconds;
- the random jitter draw, the interrupt status of a sleep and the outcome of
  each attempt of a retried body become functions of the attempt number;
- the Bukkit version string becomes an argument.

Module layout, one file each:

| file | module | contents |
|---|---|---|
| failures.dfy | `Failures` | `Option`, `Result`, the Java exceptions that are thrown |
| java_lang.dfy | `JavaLang` | the pieces of the Java library the core calls: `Math.max`/`min`, `String.indexOf`, `String.split` on one literal character, `Integer.parseInt`, int-to-string |
| rate_limiter.dfy | `RateLimiting` | the refill and take steps as functions; the `RateLimiter` class |
| expiring_cache.dfy | `Caching` | the `ExpiringCache` class; a replay model of its history |
| retry.dfy | `Retry` | backoff arithmetic; `runWithRetry` and `callWithRetry` as loops |
| platform.dfy | `Platform` | `parse`, `compare` (a loop proved against a recursive specification), `atLeast` |
| version_checks.dfy | `VersionChecks` | `isAtLeast` as written, and corrected |
| services.dfy | `ServiceLocator` | the `Services` class holding both maps |

## Model

| member | source | states |
|---|---|---|
| JavaLang.IndexOf | src/main/java/com/dreamfirestudios/scytheplugin/Core/Platform.java:51 | -1 exactly when the character is absent; otherwise the index of its first occurrence |
| JavaLang.Split | src/main/java/com/dreamfirestudios/scytheplugin/Core/Platform.java:58-59 | no piece contains the separator; a string without the separator is one piece, itself; otherwise the last piece kept is non-empty, as Java drops trailing empty strings |
| JavaLang.SplitRejoins | src/main/java/com/dreamfirestudios/scytheplugin/Core/Platform.java:58-59 | joining the pieces with the separator gives back the string minus its trailing separators; when every piece is dropped the string was separators only |
| JavaLang.ParseInt | src/main/java/com/dreamfirestudios/scytheplugin/Core/VersionChecks.java:72-73 | a digit string whose value fits in an int parses to that value; a too-large value, or anything that is not an optionally signed digit string, fails |
| JavaLang.NatToString | src/main/java/com/dreamfirestudios/scytheplugin/Core/Try.java:53 | the rendering of a count is a digit string whose value is the count, with no leading zero unless it is "0" itself |
| RateLimiting.Refill | src/main/java/com/dreamfirestudios/scytheplugin/Core/RateLimiter.java:118-126 | 0 <= stored <= burst is kept; nothing changes when now <= lastNanos; lastNanos only moves forward; stored never decreases, and grows by at most elapsed x rate, reaching either exactly that or the burst |
| RateLimiting.Take | src/main/java/com/dreamfirestudios/scytheplugin/Core/RateLimiter.java:101-109 | a request is admitted iff the refilled stock covers it; exactly the permits are taken on success and nothing on failure; the bucket stays within [0, burst] |
| RateLimiting.RefillComposes | src/main/java/com/dreamfirestudios/scytheplugin/Core/RateLimiter.java:119-125 | refilling at t1 and then at t2 equals one refill at t2, so a second refill at the same instant adds nothing and splitting time mints no tokens |
| RateLimiting.RejectedUntilATokenAccrues | src/main/java/com/dreamfirestudios/scytheplugin/Core/RateLimiter.java:101-108 | with less than one token after the refill, a single-permit request fails and consumes nothing |
| RateLimiting.TwoPermitsPerHundredMillis | src/main/java/com/dreamfirestudios/scytheplugin/Core/RateLimiter.java:101-109 | with 2 permits per 100 ms, two immediate requests pass, a third fails, and one passes 100 ms later |
| RateLimiting.RateLimiter.Init | src/main/java/com/dreamfirestudios/scytheplugin/Core/RateLimiter.java:63-66 | a new limiter starts full, with its clock at the construction time |
| RateLimiting.RateLimiter.Create | src/main/java/com/dreamfirestudios/scytheplugin/Core/RateLimiter.java:60-67 | a rate or burst <= 0 is an IllegalArgumentException with the source's message; otherwise a full, consistent limiter |
| RateLimiting.RateLimiter.Of | src/main/java/com/dreamfirestudios/scytheplugin/Core/RateLimiter.java:72-79 | permits <= 0 and a window <= 0 ns are rejected in that order; otherwise burst = permits and rate = permits / window |
| RateLimiting.RateLimiter.PerSecond | src/main/java/com/dreamfirestudios/scytheplugin/Core/RateLimiter.java:84-89 | a rate <= 0 and a burst <= 0 are rejected in that order; otherwise rate = permitsPerSecond / 1e9 |
| RateLimiting.RateLimiter.RefillLocked | src/main/java/com/dreamfirestudios/scytheplugin/Core/RateLimiter.java:118-126 | the new state is the refill step of the old one, and the limiter stays consistent |
| RateLimiting.RateLimiter.TryAcquire | src/main/java/com/dreamfirestudios/scytheplugin/Core/RateLimiter.java:101-109 | permits <= 0 throws and changes nothing; otherwise the result and new state are the take step of the old state |
| RateLimiting.RateLimiter.TryAcquireOne | src/main/java/com/dreamfirestudios/scytheplugin/Core/RateLimiter.java:92-94 | the same as a request for one permit |
| RateLimiting.RateLimiter.AvailablePermits | src/main/java/com/dreamfirestudios/scytheplugin/Core/RateLimiter.java:112-115 | only refills: the stock it returns is at least the old stock and at most the burst |
| Caching.Expire | src/main/java/com/dreamfirestudios/scytheplugin/Core/ExpiringCache.java:43-45 | a read removes at most the entry under its own key, and only when that entry is stale; every other entry is kept as it was; a stale entry under the key is removed |
| Caching.ReplayServesLastWrite | src/main/java/com/dreamfirestudios/scytheplugin/Core/ExpiringCache.java:41-99 | after any history of puts, loads, reads and invalidations, a read at `now` is served the latest surviving write of the key while it is fresh, so lazy expiry is invisible |
| Caching.PutServedUntilExpiry | src/main/java/com/dreamfirestudios/scytheplugin/Core/ExpiringCache.java:85-89 | a value put at `now` is served by reads up to and including now + ttl, and by none after |
| Caching.ExpiringCache.constructor | src/main/java/com/dreamfirestudios/scytheplugin/Core/ExpiringCache.java:33-36 | the TTL is floored to 1 ns; the cache starts empty |
| Caching.ExpiringCache.Get | src/main/java/com/dreamfirestudios/scytheplugin/Core/ExpiringCache.java:41-47 | an absent key gives empty; a fresh entry gives its value, with a cached null read as empty; a stale entry (now > exp) is removed; an entry is still fresh at now == exp |
| Caching.ExpiringCache.GetOrLoad | src/main/java/com/dreamfirestudios/scytheplugin/Core/ExpiringCache.java:52-61 | a fresh hit, null included, returns the cached value with no loader call and an unchanged map; a miss calls the loader once with the key and installs its value to expire at now + ttl, so a successful result is what a read at the same now serves; a throwing loader leaves the map unchanged |
| Caching.ExpiringCache.GetOrCompute | src/main/java/com/dreamfirestudios/scytheplugin/Core/ExpiringCache.java:71-80 | the same hit, miss and install behaviour, with one call of a key-less supplier; a successful result is what a read at the same now serves |
| Caching.ExpiringCache.Put | src/main/java/com/dreamfirestudios/scytheplugin/Core/ExpiringCache.java:85-89 | overwrites the key's entry to expire at now + ttl, so a read at the same now serves the value; other keys are untouched |
| Caching.ExpiringCache.Invalidate | src/main/java/com/dreamfirestudios/scytheplugin/Core/ExpiringCache.java:94 | removes only the given key |
| Caching.ExpiringCache.InvalidateAll | src/main/java/com/dreamfirestudios/scytheplugin/Core/ExpiringCache.java:99 | empties the cache |
| Retry.Exponential | src/main/java/com/dreamfirestudios/scytheplugin/Core/Try.java:68-69 | the delay before jitter is at least max(1, base) |
| Retry.ExponentialDoubles | src/main/java/com/dreamfirestudios/scytheplugin/Core/Try.java:68-69 | the first attempt waits max(1, base) and each later attempt doubles the delay |
| Retry.Scaled | src/main/java/com/dreamfirestudios/scytheplugin/Core/Try.java:70 | the product of a non-negative delay and a draw in [-0.2, 0.2) lies within a fifth of the delay |
| Retry.Truncate | src/main/java/com/dreamfirestudios/scytheplugin/Core/Try.java:70 | a cast to long rounds toward zero, moving by less than 1 |
| Retry.Jitter | src/main/java/com/dreamfirestudios/scytheplugin/Core/Try.java:70 | for a draw in [-0.2, 0.2), the jitter is within a fifth of the exponential delay |
| Retry.Backoff | src/main/java/com/dreamfirestudios/scytheplugin/Core/Try.java:67-74 | every backoff lies in [1, 30000] ms; for a draw in range, it lies between the capped exponential delay minus and plus a fifth |
| Retry.BackoffGrows | src/main/java/com/dreamfirestudios/scytheplugin/Core/Try.java:67-74 | without jitter, each backoff is at least the previous one |
| Retry.Sleep | src/main/java/com/dreamfirestudios/scytheplugin/Core/Try.java:76-83 | sleeps at least 1 ms; an interrupt becomes "Interrupted while backing off" wrapping an InterruptedException |
| Retry.FinalFailure | src/main/java/com/dreamfirestudios/scytheplugin/Core/Try.java:50-53 | a RuntimeException is rethrown as it is; any other Throwable is wrapped in a RuntimeException whose cause it is and whose message is opName + " failed after " + the attempt count + " attempts" |
| Retry.RunWithRetry | src/main/java/com/dreamfirestudios/scytheplugin/Core/Try.java:38-58 | maxAttempts < 1 throws before any attempt; at most maxAttempts attempts; every earlier attempt failed and its sleep was not interrupted; success iff the last attempt succeeded; k failures before success mean exactly k sleeps; each sleep is the backoff of its attempt; a last failure gives the final-failure exception, and an interrupted sleep stops the retries |
| Retry.CallWithRetry | src/main/java/com/dreamfirestudios/scytheplugin/Core/Try.java:60-65 | the same attempts, sleeps and failures as runWithRetry, with the value of the successful attempt on success |
| Platform.Parse | src/main/java/com/dreamfirestudios/scytheplugin/Core/Platform.java:69 | an int-sized digit string reads as its value; anything parseInt rejects reads as 0 |
| Platform.CompareFromFirstDifference | src/main/java/com/dreamfirestudios/scytheplugin/Core/Platform.java:60-65 | the segment comparison is -1, 0 or 1; it is 0 iff no zero-padded segment differs; otherwise its sign is that of the first differing segment |
| Platform.Compare | src/main/java/com/dreamfirestudios/scytheplugin/Core/Platform.java:57-66 | the loop computes the specified comparison of the two version strings |
| Platform.CompareFromAntisymmetric | src/main/java/com/dreamfirestudios/scytheplugin/Core/Platform.java:60-65 | swapping the segment lists negates the comparison |
| Platform.CompareAntisymmetric | src/main/java/com/dreamfirestudios/scytheplugin/Core/Platform.java:57-66 | compare(a, b) = -compare(b, a) and compare(a, a) = 0 |
| Platform.CompareFromTransitive | src/main/java/com/dreamfirestudios/scytheplugin/Core/Platform.java:60-65 | "at least" on segment lists is transitive |
| Platform.CompareTransitive | src/main/java/com/dreamfirestudios/scytheplugin/Core/Platform.java:57-66 | "at least" on version strings is transitive |
| Platform.CompareFromPadded | src/main/java/com/dreamfirestudios/scytheplugin/Core/Platform.java:61-62 | the comparison depends only on the zero-padded segments |
| Platform.DroppedPiecesReadAsZero | src/main/java/com/dreamfirestudios/scytheplugin/Core/Platform.java:58-59 | the trailing empty pieces that split drops would have read as 0 anyway |
| Platform.TrailingZeroSegments | src/main/java/com/dreamfirestudios/scytheplugin/Core/Platform.java:58-62 | the segments of a + ".0" are those of a with one more 0, so they agree once zero-padded |
| Platform.CompareIgnoresTrailingZero | src/main/java/com/dreamfirestudios/scytheplugin/Core/Platform.java:59-62 | appending ".0" changes no comparison, so "1.20" equals "1.20.0" |
| Platform.StripBuildSuffix | src/main/java/com/dreamfirestudios/scytheplugin/Core/Platform.java:50-52 | the result is the prefix of the version before its first '-', or the whole version when it has none |
| Platform.BuildSuffixIgnored | src/main/java/com/dreamfirestudios/scytheplugin/Core/Platform.java:50-52 | a server version "base-anything" with a dash-free base is compared as "base" |
| Platform.AtLeast | src/main/java/com/dreamfirestudios/scytheplugin/Core/Platform.java:48-54 | true iff the stripped server version compares >= the required one |
| VersionChecks.IsAtLeast | src/main/java/com/dreamfirestudios/scytheplugin/Core/VersionChecks.java:70-75 | succeeds iff there are two pieces and both parse as ints, and is then the lexicographic comparison of (major, minor); otherwise throws ArrayIndexOutOfBounds or NumberFormat, never defaulting to 0 |
| VersionChecks.IsAtLeastReflexive | src/main/java/com/dreamfirestudios/scytheplugin/Core/VersionChecks.java:74 | the server is at least its own (major, minor) |
| VersionChecks.IsAtLeastDownwardClosed | src/main/java/com/dreamfirestudios/scytheplugin/Core/VersionChecks.java:74 | at least (M, m) implies at least every lexicographically smaller pair |
| VersionChecks.SamePiecesSameAnswer | src/main/java/com/dreamfirestudios/scytheplugin/Core/VersionChecks.java:71-74 | two versions whose first two pieces agree get the same answer |
| VersionChecks.LeadingPieces | src/main/java/com/dreamfirestudios/scytheplugin/Core/VersionChecks.java:71 | a dot-free major, a dot and a non-empty minor piece split into at least two pieces, the major and the minor |
| VersionChecks.OnlyFirstTwoSegmentsRead | src/main/java/com/dreamfirestudios/scytheplugin/Core/VersionChecks.java:71-73 | everything after a second '.' is ignored |
| VersionChecks.NumericReleaseRead | src/main/java/com/dreamfirestudios/scytheplugin/Core/VersionChecks.java:71-74 | a plain "M.m" is read as (M, m) |
| VersionChecks.PatchlessReleaseThrows | src/main/java/com/dreamfirestudios/scytheplugin/Core/VersionChecks.java:71-73 | as written, every "M.m-build" version throws NumberFormatException on its second piece |
| VersionChecks.Release121Throws | src/main/java/com/dreamfirestudios/scytheplugin/Core/VersionChecks.java:71-73 | as written, "1.21-R0.1-SNAPSHOT" makes isAtLeast(1, 20) throw |
| VersionChecks.IsAtLeastRelease | src/main/java/com/dreamfirestudios/scytheplugin/Core/VersionChecks.java:70-75 | the corrected gate agrees with isAtLeast on versions without a build suffix |
| VersionChecks.ReleaseVersionsRead | src/main/java/com/dreamfirestudios/scytheplugin/Core/VersionChecks.java:70-75 | the corrected gate reads every "M.m-build" and "M.m.p-build" version as (M, m) |
| VersionChecks.Release121Accepted | src/main/java/com/dreamfirestudios/scytheplugin/Core/VersionChecks.java:70-75 | the corrected gate finds "1.21-R0.1-SNAPSHOT" at least 1.20 |
| ServiceLocator.LatestRegistrationMeaning | src/main/java/com/dreamfirestudios/scytheplugin/Core/Services.java:42-46 | none iff the type never appears in the history; otherwise the implementation of its last registration |
| ServiceLocator.Services.constructor | src/main/java/com/dreamfirestudios/scytheplugin/Core/Services.java:25-26 | both maps start empty |
| ServiceLocator.Services.Register | src/main/java/com/dreamfirestudios/scytheplugin/Core/Services.java:42-46 | the registry maps the type to the new implementation; other types and the limiter table are untouched |
| ServiceLocator.Services.Get | src/main/java/com/dreamfirestudios/scytheplugin/Core/Services.java:51-56 | the latest registered implementation; for a type never registered, IllegalStateException "Service not registered: " + name |
| ServiceLocator.Services.Maybe | src/main/java/com/dreamfirestudios/scytheplugin/Core/Services.java:61-65 | the latest registered implementation if any; empty exactly when get throws |
| ServiceLocator.Services.IsRegistered | src/main/java/com/dreamfirestudios/scytheplugin/Core/Services.java:70-73 | true iff some registration of the type happened |
| ServiceLocator.Services.NewExpiringCache | src/main/java/com/dreamfirestudios/scytheplugin/Core/Services.java:81-85 | a fresh, empty cache with the floored TTL on every call; the name is not kept |
| ServiceLocator.Services.RateLimiterFor | src/main/java/com/dreamfirestudios/scytheplugin/Core/Services.java:90-94 | a known name returns its limiter whatever the permits and window; otherwise RateLimiter.of is recorded under the name; a failing of records nothing and throws its exception |

Behaviour of the code worth knowing, which the model keeps:

- The final failure of a retried body is not always wrapped. A RuntimeException
  is rethrown as it is.
- The jitter draw is in the half-open range [-0.2, 0.2). The jittered delay is
  truncated to whole milliseconds and floored to 1 ms.
- A cached null is honoured by `get(key, loader)` and `getOrCompute`, but
  `get(key)` reports it as empty.

## Left out

- Concurrency: `synchronized`, `ConcurrentHashMap` and the conditional `remove(key, e)` of a stale entry. Each component is single-threaded, and the stale entry read is the one removed.
- Floating point: tokens, rates and jitter draws are real numbers, so there is no IEEE rounding. The `add > 0.0` guard of the refill always holds once time has passed.
- Loaders, suppliers and retried bodies are side-effect-free functions of their inputs here. In Java they may run arbitrary code, including a loader that calls `put` or `invalidate` on the same cache before the outer `put`; such re-entrant effects are not modelled.
- Java `long` overflow: the shift `baseMs << (attempt - 1)` (whose shift count Java takes mod 64), `now + ttl` and `now - lastNanos` are unbounded here.
- Retry.Exponential: does not model the shift count wrapping mod 64 or the long overflow of the shift, because integers are unbounded.
- Retry.BackoffGrows: holds only for unbounded integers. In Java, with a 1000 ms base, `baseMs << 54` at attempt 55 overflows to a negative delay, and the backoff drops from 30000 ms to 1 ms.
- Retry.Backoff: its band of the capped exponential delay plus or minus a fifth holds only while the shift does not overflow, for the same reason.
- `Duration` conversions: delays are whole milliseconds, and TTLs and windows are whole nanoseconds.
- `Objects.requireNonNull` checks and null arguments: Dafny values are never null. A null value stored in the cache is `None`.
- `Integer.parseInt` accepts non-ASCII Unicode digits; only ASCII digits are modelled.
- The exact messages of the JDK's own exceptions (NumberFormatException, ArrayIndexOutOfBoundsException, InterruptedException) follow current JDK wording but are not guaranteed.
- `Thread.currentThread().interrupt()`, which restores the interrupt flag after an interrupted sleep: the flag is not modelled.
- `Services.get` and `maybe` cast with `type.cast`: the registry holds one implementation type `S`, so there are no class casts.
- `Services.bootstrap` and `scheduler()`: they build a Bukkit-bound Scheduler, and Scheduler.java is not part of this model.
- EventBus.java is not part of this model.
- `VersionChecks.isPaper`, `isFolia`, `getServerVersion` and `logPlatformInfo`: class-loader probes and logging.
- `Platform.bukkitVersion` and `Platform.hasPlugin`: they only query Bukkit.

## Findings

| source | as written | input that shows it | evidently intended | confidence | as-written member | corrected member |
|---|---|---|---|---|---|---|
| src/main/java/com/dreamfirestudios/scytheplugin/Core/VersionChecks.java:71-73 | splits the raw Bukkit version on '.' and parses the second piece with `Integer.parseInt` | "1.21-R0.1-SNAPSHOT", the Bukkit version of a release without a patch number: its second piece is "21-R0", so `isAtLeast(1, 20)` throws NumberFormatException | read (1, 21) by dropping the build suffix from the first '-', as `Platform.atLeast` does | high (not executed) | VersionChecks.PatchlessReleaseThrows | VersionChecks.ReleaseVersionsRead |
