# Client-side request limiter

A model of the request limiter in `src/services/rateLimit.ts`. The limiter
keeps one persisted record `{count, timestamp}` in the browser's storage. It
allows `RATE_LIMIT = 10` requests per window of `WINDOW_MS = 86400000`
milliseconds (one day). The window starts at the first request after the
previous window expired.

- `checkRateLimit` loads the record. When nothing is stored it uses
  `{count: 0, timestamp: now}`. It restarts the window when strictly more than
  one window has elapsed. It throws `RateLimitError` when the count has
  reached the quota, and writes nothing in that case. Otherwise it counts the
  request and writes the record back.
- `getRateLimitInfo` projects the record onto `{remaining, resetTime}`. It
  does not apply the expiry reset.

Layout:

- `rate_limit.dfy`, module `RateLimit`:
  - the constants `RequestLimit` (source `RATE_LIMIT`) and `WindowMs` (source `WINDOW_MS`);
  - the record `RateLimitData`;
  - `Check`, one call of `checkRateLimit` as a function on the stored value;
  - `InfoOf`, the projection;
  - `Replay`, a series of calls;
  - the class `RateLimitStore`. Its field `stored` stands for the storage
    entry. Its method `CheckRateLimit` computes the new record step by step in
    a local and writes the field once on success, as the source does with one
    `localStorage.setItem`; it is proved equal to `Check`.
- `rate_limit_properties.dfy`, module `RateLimitProperties`: lemmas about the
  model.

Two modelling choices stand in for the platform:

- The clock `Date.now()` is the parameter `now`.
- `RateLimitError` is the outcome `RateLimitError(resetTime)`. It carries the
  integer reset instant `timestamp + WINDOW_MS` rather than the formatted
  message.

Two behaviours of the code worth noting:

- Malformed storage is not forgiven. `JSON.parse` at
  `src/services/rateLimit.ts:14` is unguarded, so text that is not JSON makes
  it throw. The model distinguishes only an absent entry from a stored
  record `{count, timestamp}`.
- The projection applies no expiry reset (`src/services/rateLimit.ts:32-39`).
  After a window has elapsed it reports the stale count and a reset instant
  in the past. `InfoIgnoresClock` and `InfoStaleAfterExpiry` state this.

`getRateLimitInfo` never writes the store: `RateLimitStore.GetRateLimitInfo`
is a function that only reads `stored`. Repeated calls return the same value
only while a record is stored (`InfoIgnoresClock`). With nothing stored, each
call builds the default record from the clock, so the reported reset instant
is `now + WINDOW_MS` at each call and moves forward with the clock
(`InfoDriftsWhenEmpty`).

## Model

| member | source | states |
|---|---|---|
| RateLimit.Loaded | src/services/rateLimit.ts:14 | the record a call starts from is the stored one, or {count: 0, timestamp: now} when nothing is stored (line 34 of the same file uses the same default); a default record is never found expired |
| RateLimit.Expired | src/services/rateLimit.ts:17 | a window has elapsed exactly when its reset instant timestamp + WINDOW_MS lies strictly before now |
| RateLimit.Current | src/services/rateLimit.ts:14-19 | the record after the reset is never expired; an expired record is replaced by {count: 0, timestamp: now}, an unexpired one is kept as loaded |
| RateLimit.Check | src/services/rateLimit.ts:11-30 | a call is rejected exactly when a stored record whose window has not elapsed has count >= 10; a rejection writes nothing, can only come from a stored record whose window has not elapsed, and carries that window's start plus WINDOW_MS; a success always leaves a record stored |
| RateLimit.InfoOf | src/services/rateLimit.ts:32-39 | remaining is never negative and at most the quota for a non-negative count; it is zero exactly when the count has reached the quota; otherwise remaining plus count equals the quota; the reset instant is the window start plus WINDOW_MS, with the default record when nothing is stored |
| RateLimit.Replay | src/services/rateLimit.ts:11-30 | a series of calls yields one outcome per call; an empty series leaves the store as it was |
| RateLimit.RateLimitStore.constructor | src/services/rateLimit.ts:13 | the limiter starts from whatever the storage already holds |
| RateLimit.RateLimitStore.CheckRateLimit | src/services/rateLimit.ts:11-30 | the in-place update returns the outcome and leaves the store exactly as `Check` prescribes; a rejection leaves the store unchanged; a store within the quota stays within it |
| RateLimit.RateLimitStore.GetRateLimitInfo | src/services/rateLimit.ts:32-39 | reads the store and writes nothing; remaining is never negative; the reset instant is the stored window start plus WINDOW_MS; with nothing stored it reports the full quota and a reset one window from now |
| RateLimitProperties.FreshStore | src/services/rateLimit.ts:13-14 | with nothing stored, a call opens a window at `now` holding one request, and the projection reports 10 remaining and a reset at now + WINDOW_MS |
| RateLimitProperties.WindowKeptWithin | src/services/rateLimit.ts:17-29 | when at most WINDOW_MS has elapsed (exactly WINDOW_MS and a clock that went backwards included), the stored window is kept: rejection with its reset instant and no write if the count has reached 10, otherwise count + 1 with the same window start |
| RateLimitProperties.ExpiredAlwaysSucceeds | src/services/rateLimit.ts:17-29 | a call that finds the window elapsed succeeds whatever the old count and leaves {count: 1, timestamp: now} |
| RateLimitProperties.SuccessCountsOne | src/services/rateLimit.ts:28-29 | on success the store holds the found (or reset) record with its count increased by one; on a window that has not elapsed the window start does not move |
| RateLimitProperties.SuccessCountInRange | src/services/rateLimit.ts:22-29 | after a success the stored count lies in 1..10, provided it started non-negative |
| RateLimitProperties.CheckPreservesWellFormed | src/services/rateLimit.ts:17-29 | every call keeps a stored count within 0..10 |
| RateLimitProperties.RejectionKeepsInfo | src/services/rateLimit.ts:22-25 | after a rejection the projection is unchanged, reports 0 remaining, and reports the same reset instant the rejection carried |
| RateLimitProperties.InfoPredictsCheck | src/services/rateLimit.ts:17-39 | while the window has not elapsed, a call succeeds exactly when the projection reports requests remaining, and afterwards the projection reports one fewer with the same reset instant |
| RateLimitProperties.InfoIgnoresClock | src/services/rateLimit.ts:32-39 | with a record stored, the projection does not depend on the clock (no expiry reset) |
| RateLimitProperties.InfoDriftsWhenEmpty | src/services/rateLimit.ts:33-38 | with nothing stored, the projection reports the full quota and a reset instant now + WINDOW_MS that moves by exactly as much as the clock between calls |
| RateLimitProperties.InfoStaleAfterExpiry | src/services/rateLimit.ts:17-39 | for every record whose window has elapsed, the projection reports a reset instant in the past, and 0 remaining if the old count reached 10, while the next call succeeds and leaves {count: 1, timestamp: now} |
| RateLimitProperties.ReplayAppend | src/services/rateLimit.ts:11-30 | calls run as one series give the same outcomes and final store as the same calls run as two consecutive series |
| RateLimitProperties.WithinOneWindow | src/services/rateLimit.ts:17-29 | calls inside one window starting from count c: the i-th succeeds exactly when c + i < 10, later ones fail with the same reset instant, and the window start never moves |
| RateLimitProperties.FirstTenSucceed | src/services/rateLimit.ts:3-29 | from an empty store, with every call inside the window the first call opens, the first 10 calls succeed and every later one fails with reset instant first-call + WINDOW_MS |
| RateLimitProperties.EndToEnd | src/services/rateLimit.ts:3-39 | ten calls at t0 succeed; an eleventh at t0 + 1000 fails with reset instant t0 + 86400000; a twelfth at t0 + 86400001 succeeds and leaves 9 remaining with a reset at that instant + 86400000 |

## Left out

- JSON (de)serialisation and `localStorage`. The entry is the field `stored`. An entry that does not parse makes the source throw from `JSON.parse`, and that path is not modelled. An empty string counts as absent in the source; the model never writes one.
- A stored entry that parses as JSON but is not a pair of numbers `{count, timestamp}` (for example `{}` or `null`) is not modelled. The source then computes with NaN or throws a TypeError, but it only ever writes such pairs itself.
- JavaScript numbers are doubles. `count` and `timestamp` are modelled as unbounded integers, and millisecond timestamps stay well inside the exactly representable range.
- The message text built with `toLocaleTimeString`. The error carries only the integer reset instant. The `./errors` file that defines `RateLimitError` is not part of this model.
- Races between browser tabs sharing the same storage entry: the source does not coordinate them.
- The callers (`src/services/gemini.ts` and its copies), the React components that poll `getRateLimitInfo` on a timer, and the styling configuration are not part of this model.
