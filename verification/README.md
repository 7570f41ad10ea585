# sentinel-ratelimit core, modelled in Dafny

This project models the rate-limiting core of sentinel-ratelimit, a Python
HTTP rate limiter, and proves properties of the model.

- **In-memory storage backend.** Three dictionaries hold plain values, sorted
  sets and expiry times. A key is expired lazily, when an operation reads it.
  Sorted sets stay ordered by score, and each member appears at most once.
- **Token bucket strategy.** A bucket stored under `tb:<key>` refills at
  `limit / window` tokens per second, capped at `limit`. Each check spends
  one token, and a check that finds less than one token is denied.
- **Sliding window log strategy.** A sorted set under `sw:<key>` holds one
  timestamp per allowed request. Each check prunes entries older than the
  window, counts the rest, and allows the request while the count is below
  the limit.
- **Response record.** Both strategies return the same record, carrying the
  decision, the limit, the remaining count, the reset time and the retry
  delay.
- **Quota table.** An API key's prefix picks its tier, and each tier has a
  fixed limit.
- **HTTP middleware.** It derives a client key from the request, checks it
  against the token bucket with its configured limit and window, and either
  answers 429 or forwards the request with the rate-limit headers set.

Each source file maps to one Dafny file:

- `memory_backend.dfy` holds the backend.
  - The class `InMemoryBackend` has the three dictionaries as `map` fields.
  - Each method's new state is stated as a pure function of the old state, over the `Store` datatype.
  - Lemmas state the documented backend contract over those functions.
- `sorted_set.dfy` holds the list operations the backend builds sorted sets with:
  - the filtering comprehensions;
  - the append-then-sort of `zadd`, done as one insertion pass on a sequence;
  - Python slicing.
- `token_bucket.dfy` and `sliding_window.dfy` hold the strategies.
  - Each is a class over a backend, with a `Check` method proved equal to a pure `Outcome`/step function.
  - Beside it are lemmas about single checks, resets, and runs of checks.
  - The main lemma about runs is the sliding window's no-burst invariant.
- `strategy_base.dfy` holds the decision, the response record and the storage-key scheme.
- `quota.dfy` holds tier resolution and the quota table.
- `py_text.dfy` holds the Python string operations the middleware uses:
  - `str()` of an integer, with its parse-back;
  - `str.strip()`;
  - `split(",")[0]`.
- `middleware.dfy` holds client-key derivation and the mapping from a decision to headers and a 429 reply.
  - The class `RateLimitMiddleware` has a `Dispatch` method.
  - The class `HttpResponse` has a header-copying loop.

Time is always an explicit `now` parameter. Timestamps and token counts are
`real`, and Python's `int()` on a float is written out as truncation toward
zero (`Numeric.Trunc`).

## Model

| member | source | states |
|---|---|---|
| Numeric.Trunc | src/sentinel/core/strategies/token_bucket.py:141 | `int(x)` on a float: for x ≥ 0 the result r satisfies r ≤ x < r + 1; for x < 0 it satisfies r − 1 < x ≤ r |
| SortedSet.InsertByScoreContents | src/sentinel/core/backends/memory.py:164-168 | appending an entry and sorting adds exactly that entry: length +1, multiset grows by the entry |
| SortedSet.InsertByScoreSorted | src/sentinel/core/backends/memory.py:167-168 | after the append and sort, the set is ordered by score ascending |
| SortedSet.InsertByScoreUnique | src/sentinel/core/backends/memory.py:159-165 | once the old entry of a member is filtered out, re-adding it keeps members unique |
| SortedSet.SortAppended | src/sentinel/core/backends/memory.py:165-168 | the stable sort of a sorted list with one entry appended: the result is sorted, is a permutation of the input, and puts the new entry after every entry of equal or lower score |
| SortedSet.RangeRedisInclusive | src/sentinel/core/backends/base.py:179-185 | Redis range reading: the stop index is inclusive, −1 names the last member, and (0, 0) gives the first member or nothing |
| SortedSet.RangeAgreement | src/sentinel/core/backends/memory.py:247-259 | the backend's index arithmetic agrees with the Redis reading whenever stop ≥ −len − 1 |
| SortedSet.RangeAsWrittenWrapsAround | src/sentinel/core/backends/memory.py:247-259 | with 3 members, zrange(0, −5) as written yields 2 members, where the Redis reading yields none |
| MemoryBackend.CleanupValid | src/sentinel/core/backends/memory.py:71-86 | expiring or deleting a key keeps every sorted set sorted with unique members |
| MemoryBackend.ZAddValid | src/sentinel/core/backends/memory.py:142-168 | `zadd` keeps every sorted set sorted with unique members |
| MemoryBackend.ZRemValid | src/sentinel/core/backends/memory.py:170-203 | `zremrangebyscore` keeps every sorted set sorted with unique members |
| MemoryBackend.GetAfterSet | src/sentinel/core/backends/base.py:51-80 | after `set`, `get` returns the value while now ≤ set time + ttl. After that it returns None, and the key is gone from all three maps. Other keys are unaffected |
| MemoryBackend.DeleteEffect | src/sentinel/core/backends/base.py:92-97 | after `delete` the key has no value, set or live listing; other keys read as before; deleting an absent key changes nothing |
| MemoryBackend.ZAddEffect | src/sentinel/core/backends/base.py:105-114 | after `zadd` the member is present with the new score, other members keep theirs, the set is well formed, and it grows by one exactly when the member was new |
| MemoryBackend.ZRemEffect | src/sentinel/core/backends/base.py:123-140 | `zremrangebyscore` keeps exactly the entries with score outside [min, max] (both ends inclusive) and returns the number removed. A missing or expired key returns 0 |
| MemoryBackend.ZRemLeavesClean | src/sentinel/core/backends/memory.py:187-203 | after the removal the set is the kept entries, and a read at the same instant expires nothing |
| MemoryBackend.ZCardEffect | src/sentinel/core/backends/base.py:153-163 | `zcard` is the set's size, and 0 for a missing or expired key |
| MemoryBackend.ZRangeEffect | src/sentinel/core/backends/base.py:173-185 | zrange(0, 0) is the lowest-scored member, or empty; zrange(0, −1) is all members in score order |
| MemoryBackend.ExpireEffect | src/sentinel/core/backends/memory.py:261-273 | `expire` sets now + seconds only for a key holding a value or a set; otherwise the store is unchanged |
| MemoryBackend.ExpireThenRead | src/sentinel/core/backends/base.py:198-213 | after `expire(key, seconds)` on a key that holds something, the key is deleted once the timeout passes: `get` gives None, `zcard` 0, `keys` omits it, and the cleanup removes it from all three maps. Until then the value and the set read as before, and the key is listed |
| MemoryBackend.KeysEffect | src/sentinel/core/backends/memory.py:289-297 | a key just set with ttl ≥ 0 is listed, a deleted key is not, and an empty store lists nothing |
| MemoryBackend.InMemoryBackend.constructor | src/sentinel/core/backends/memory.py:46-55 | a new backend has three empty maps |
| MemoryBackend.InMemoryBackend.CleanupIfExpired | src/sentinel/core/backends/memory.py:57-86 | reports whether now is past the key's expiry and, if so, removes the key from all three maps |
| MemoryBackend.InMemoryBackend.Get | src/sentinel/core/backends/memory.py:92-108 | returns the stored value unless it is missing or expired, cleaning up an expired key |
| MemoryBackend.InMemoryBackend.Set | src/sentinel/core/backends/memory.py:110-125 | stores the value with expiry now + ttl |
| MemoryBackend.InMemoryBackend.Delete | src/sentinel/core/backends/memory.py:127-136 | removes the key from all three maps |
| MemoryBackend.InMemoryBackend.ZAdd | src/sentinel/core/backends/memory.py:142-168 | cleans up, drops the member's old entry, appends, and sorts. The new set equals `ZAddStore`, which `ZAddEffect` characterises |
| MemoryBackend.InMemoryBackend.ZRemRangeByScore | src/sentinel/core/backends/memory.py:170-203 | the new set and the returned count are those of `ZRemStore`/`ZRemCount` |
| MemoryBackend.InMemoryBackend.ZCard | src/sentinel/core/backends/memory.py:205-218 | returns the live set's size after the lazy cleanup |
| MemoryBackend.InMemoryBackend.ZRange | src/sentinel/core/backends/memory.py:220-259 | returns the members of the Python slice as written. When stop ≥ −len − 1 this equals the Redis reading `ZRangeOf` |
| MemoryBackend.InMemoryBackend.Expire | src/sentinel/core/backends/memory.py:261-273 | sets the expiry only for a key present in either map |
| MemoryBackend.InMemoryBackend.Clear | src/sentinel/core/backends/memory.py:279-287 | empties all three maps |
| MemoryBackend.InMemoryBackend.Keys | src/sentinel/core/backends/memory.py:289-297 | lists exactly the keys in either map that are not expired |
| StrategyBase.Response | src/sentinel/core/strategies/base.py:26-59 | a response built without retry_after has none, and `is_allowed` holds iff the result is ALLOWED |
| StrategyBase.ResultIsTwoValued | src/sentinel/core/strategies/base.py:14-23 | a result is ALLOWED or DENIED, and `is_allowed` is false exactly for DENIED |
| StrategyBase.StorageKeyInjective | src/sentinel/core/strategies/token_bucket.py:101 | under one prefix, distinct caller keys map to distinct storage keys |
| StrategyBase.StorageKeysDisjoint | src/sentinel/core/strategies/sliding_window.py:65 | two different prefixes of equal length ("tb", "sw") give disjoint storage keys |
| TokenBucket.TokenBucketStrategy.constructor | src/sentinel/core/strategies/token_bucket.py:67-74 | the strategy keeps the backend it is given |
| TokenBucket.TokenBucketStrategy.Check | src/sentinel/core/strategies/token_bucket.py:76-156 | the response equals `Outcome` and the new store equals `StepStore`, both of which `CheckEffect` characterises |
| TokenBucket.TokenBucketStrategy.Reset | src/sentinel/core/strategies/token_bucket.py:158-168 | deletes `tb:key` and nothing else |
| TokenBucket.TokenBucketStrategy.GetState | src/sentinel/core/strategies/token_bucket.py:170-180 | returns the live bucket stored under the key, or None |
| TokenBucket.TokenBucketStrategy.SaveState | src/sentinel/core/strategies/token_bucket.py:182-202 | stores the tokens and the refill time with the given ttl |
| TokenBucket.CheckEffect | src/sentinel/core/strategies/token_bucket.py:100-156 | allowed iff refilled tokens ≥ 1. If allowed: remaining = int(current − 1), reset now + window, no retry, bucket saved as (current − 1, now) for 2 × window. If denied: remaining 0, retry = (1 − current) / rate, reset now + retry, and no key changes |
| TokenBucket.FreshKeyIsFull | src/sentinel/core/strategies/token_bucket.py:110-113 | a key without a bucket is allowed, with limit − 1 left, and then holds limit − 1 tokens |
| TokenBucket.RefillIsCapped | src/sentinel/core/strategies/token_bucket.py:119-124 | refilled tokens never exceed limit, so an allowed check reports at most limit − 1; on a well-behaved bucket they are never negative |
| TokenBucket.AllowedCheckSaves | src/sentinel/core/strategies/token_bucket.py:127-136 | after an allowed check the bucket reads back as (current − 1, now) with expiry now + 2 × window |
| TokenBucket.CheckKeepsBucketOk | src/sentinel/core/strategies/token_bucket.py:119-136 | a check keeps stored tokens in [0, limit] and the refill time no later than now |
| TokenBucket.DenialRetryBounds | src/sentinel/core/strategies/token_bucket.py:144-156 | on a well-behaved bucket, a denial's retry_after lies in (0, window] |
| TokenBucket.BurstAtOneInstant | tests/unit/test_token_bucket.py:78-119 | from a fresh key at one instant, checks 1..limit are allowed with limit − 1, …, 0 left, and the next is denied with 0 |
| TokenBucket.RefillAfterWaiting | tests/unit/test_token_bucket.py:163-185 | with limit 2 and window 2, a third check at time 0 is denied and a check at 1.1 s is allowed |
| TokenBucket.ResetRestoresFullBucket | tests/unit/test_token_bucket.py:290-344 | after reset, the next check is allowed with limit − 1 left, and other keys read as before |
| SlidingWindow.SlidingWindowStrategy.constructor | src/sentinel/core/strategies/sliding_window.py:67-74 | the strategy keeps the backend it is given |
| SlidingWindow.SlidingWindowStrategy.Check | src/sentinel/core/strategies/sliding_window.py:76-144 | the response equals `Outcome` and the new store equals `Step`, both of which `CheckEffect` characterises |
| SlidingWindow.SlidingWindowStrategy.Reset | src/sentinel/core/strategies/sliding_window.py:146-156 | deletes `sw:key` and nothing else |
| SlidingWindow.SlidingWindowStrategy.CalculateRetryAfter | src/sentinel/core/strategies/sliding_window.py:158-185 | returns max(0.1, oldest + window − now), or the window when the log is empty |
| SlidingWindow.PrunedShape | src/sentinel/core/strategies/sliding_window.py:102-112 | the prune keeps exactly the live entries scored outside [0, now − window], and the count is their number |
| SlidingWindow.CheckEffect | src/sentinel/core/strategies/sliding_window.py:100-144 | allowed iff the pruned count < limit. If allowed: remaining = limit − count − 1, reset now + window, no retry, the log holds (now, now) plus the kept entries with other members, and the expiry is now + window. If denied: remaining 0, reset now + retry_after, and the log is the pruned log |
| SlidingWindow.RetryAfterBounds | src/sentinel/core/strategies/sliding_window.py:178-185 | with window ≥ 1 and no logged time after now, the retry delay is max(0.1, oldest + window − now) and lies in (0, window] |
| SlidingWindow.DenialRetryBounds | src/sentinel/core/strategies/sliding_window.py:129-144 | a denial carries a retry_after in (0, window], reset now + retry_after, and remaining 0 |
| SlidingWindow.SlotFreedAfterWindow | tests/unit/test_sliding_window.py:183-238 | once the oldest entry is at or before now − window, a log of at most `limit` entries lets the next check through |
| SlidingWindow.ResetClearsLog | src/sentinel/core/strategies/sliding_window.py:146-156 | after reset, the next check is allowed with limit − 1 left, and other keys read as before |
| SlidingWindow.StrategiesNeverShareKeys | src/sentinel/core/strategies/token_bucket.py:65 | `sw:` keys and `tb:` keys never coincide, whatever the caller keys |
| SlidingWindow.RunKeepsLogInv | src/sentinel/core/strategies/sliding_window.py:102-128 | over any run with non-decreasing times and distinct members: the log's scores are the allowed times inside the window, and no window ever held more than `limit` allowed checks |
| SlidingWindow.NoBurst | tests/unit/test_sliding_window.py:538-563 | no window of `window` seconds ever contains more than `limit` allowed checks, for any such run |
| SlidingWindow.NoBurstAsWritten | src/sentinel/core/strategies/sliding_window.py:114-121 | with the timestamp as member, the no-burst bound holds when timestamps strictly increase |
| SlidingWindow.NoBurstTagged | src/sentinel/core/strategies/sliding_window.py:116-118 | with a member unique to each request, the bound holds for any non-decreasing timestamps, equal ones included |
| SlidingWindow.OneWindow | tests/unit/test_sliding_window.py:510-526 | from an empty log, with n checks inside one window: min(n, limit) are allowed, and the last check sees min(n − 1, limit) logged requests |
| SlidingWindow.ExactlyLimitInOneWindow | tests/unit/test_sliding_window.py:154-171 | check n, counting from 0, is allowed with limit − n − 1 left while n < limit, and denied with 0 left afterwards |
| SlidingWindow.SameInstantStep | src/sentinel/core/strategies/sliding_window.py:116-121 | on a log holding nothing, or only the entry of an earlier check at the same instant, a check with limit ≥ 2 is allowed and leaves that single entry |
| SlidingWindow.SameInstantAsWritten | src/sentinel/core/strategies/sliding_window.py:116-118 | as written, n checks at one instant are all allowed when limit ≥ 2, putting n allowed checks in one window |
| SlidingWindow.SameInstantTagged | src/sentinel/core/strategies/sliding_window.py:116-118 | with per-request members, checks at one instant are held to `limit` |
| Quota.TierName | src/sentinel/core/quota.py:4-7 | each tier has a non-empty string value |
| Quota.TierNamesDistinct | src/sentinel/core/quota.py:4-7 | tiers with equal string values are the same tier |
| Quota.TierConfig | src/sentinel/core/quota.py:21-25 | every tier's quota has a positive limit and a 60-second window |
| Quota.HigherTierMoreRequests | src/sentinel/core/quota.py:22-24 | FREE < PREMIUM < VIP in limit, at the same window |
| Quota.ResolveTier | src/sentinel/core/quota.py:34-47 | VIP iff the key starts with "vip_"; PREMIUM iff it starts with "prem_"; FREE iff the key is missing or has neither prefix (the empty key included) |
| Quota.PrefixesExclusive | src/sentinel/core/quota.py:42-45 | no key starts with both "vip_" and "prem_" |
| Quota.GetQuota | src/sentinel/core/quota.py:27-32 | total; every result has limit > 0 and window > 0 and is one of the three table entries |
| Quota.EmptyKeyIsFree | src/sentinel/core/quota.py:38-39 | an empty key and a missing key both get (5, 60) |
| Quota.PrefixedKeysGetMore | src/sentinel/core/quota.py:21-47 | a "vip_" or "prem_" key gets a strictly larger limit than an anonymous caller, at the same window |
| PyText.NatToString | src/sentinel/api/middleware.py:20-22 | `str(n)` is non-empty decimal digits, with no leading zero |
| PyText.IntToString | src/sentinel/api/middleware.py:20-22 | `str(i)` is a well-formed integer literal that starts with '-' iff i < 0 |
| PyText.ParseNatToString | src/sentinel/api/middleware.py:20-22 | the digits `str` writes for n read back as n |
| PyText.IntToStringRoundTrip | src/sentinel/api/middleware.py:20-22 | every integer header value reads back as the integer written |
| PyText.IntToStringInjective | src/sentinel/api/middleware.py:20-22 | different integers give different header values |
| PyText.Strip | src/sentinel/api/middleware.py:50 | `strip()` leaves no whitespace at either end and never lengthens the text |
| PyText.StripRemovesOnlySpace | src/sentinel/api/middleware.py:50 | `strip()` keeps every non-whitespace character and adds none |
| PyText.StripIdempotent | src/sentinel/api/middleware.py:50 | stripping twice is the same as stripping once |
| PyText.FirstField | src/sentinel/api/middleware.py:50 | `split(",")[0]` is the prefix before the first comma (or all the text), and contains no comma |
| Middleware.ClientIp | src/sentinel/api/middleware.py:48-52 | with a non-empty X-Forwarded-For header, the address has no comma and no whitespace at either end |
| Middleware.ClientKey | src/sentinel/api/middleware.py:43-54 | the key starts with "api:" iff a non-empty API key is given, and with "ip:" otherwise |
| Middleware.ApiKeyTakesPrecedence | src/sentinel/api/middleware.py:44-46 | when a non-empty API key is given, X-Forwarded-For and the client host do not affect the key |
| Middleware.ApiKeysSeparate | src/sentinel/api/middleware.py:44-46 | distinct API keys give distinct client keys |
| Middleware.AddressKey | src/sentinel/api/middleware.py:48-54 | without an API key the key is "ip:" followed by the stripped first forwarded entry, else the client host, else "unknown" |
| Middleware.ForwardedFirstEntryOnly | src/sentinel/api/middleware.py:48-50 | whitespace around the first forwarded entry and every entry after the first comma are ignored |
| Middleware.DictSet | src/sentinel/api/middleware.py:26 | assigning a dict entry sets that name's value. Other names are unchanged, and a new name goes at the end |
| Middleware.RateLimitHeadersMeaning | src/sentinel/api/middleware.py:19-23 | the three headers read back as the limit, the remaining count and int(reset_at) |
| Middleware.RateLimitHeaderNames | src/sentinel/api/middleware.py:19-23 | the headers dict holds exactly X-RateLimit-Limit, -Remaining and -Reset |
| Middleware.RetrySeconds | src/sentinel/api/middleware.py:26 | `int(retry_after or 1)`: None or 0 gives 1; a positive value gives its whole seconds |
| Middleware.DenialHeadersMeaning | src/sentinel/api/middleware.py:25-26 | a denial has four headers: the three rate-limit ones unchanged, plus Retry-After, which reads back as those seconds |
| Middleware.SubSecondRetryIsZero | src/sentinel/api/middleware.py:26 | a retry_after strictly between 0 and 1 is sent as Retry-After 0 |
| Middleware.TokenBucketRetryHeaderBound | src/sentinel/api/middleware.py:26 | on a well-behaved bucket, a token-bucket denial's Retry-After lies in [0, window] |
| Middleware.Rejection | src/sentinel/api/middleware.py:25-35 | a denial becomes a 429 reply whose body carries the response's retry_after |
| Middleware.AppliedAgrees | src/sentinel/api/middleware.py:38-39 | copying a dict with distinct names onto the response sets each name to its value and leaves every other header as it was |
| Middleware.HttpResponse.SetHeaders | src/sentinel/api/middleware.py:37-39 | the copy loop leaves the status alone and makes the headers equal `Applied(old headers, dict)` |
| Middleware.RateLimitMiddleware.constructor | src/sentinel/api/middleware.py:9-13 | the middleware keeps the strategy, limit and window it is given |
| Middleware.RateLimitMiddleware.Dispatch | src/sentinel/api/middleware.py:15-41 | checks the client key with the configured limit and window. Denied: the 429 `Rejection`, downstream untouched. Allowed: the downstream response with the rate-limit headers copied on |
| Middleware.AllowedResponseHeaders | src/sentinel/api/middleware.py:37-41 | an allowed response carries the three headers, reading back as the decision's numbers, and keeps all its other headers |

## Left out

- **Redis backends.** The Redis backend, the second storage interface used only by it, and the stale `scr/` copy of the middleware and strategy base are not part of this model. They are thin calls over the network, or code that does not run.
- **Application wiring.** The FastAPI app, the routes, settings loading and logging are not modelled. The one wiring fact the middleware depends on is kept: the app installs it with a token-bucket strategy.
- **Concurrency.**
  - Each `check` is one sequential step.
  - The strategies' separate awaited read and write calls can interleave between requests; the model does not capture this.
  - The backend is not thread-safe; the model does not capture this either.
- **Clock.** `time.time()` becomes the `now` parameter, and tests' sleeps become later `now` values.
- **Floating point.** Times and tokens are exact reals, without IEEE rounding.
  - The sliding window stores `f"{now}"` as a member and reads it back with `float()`. The model treats this round trip as the identity, so members are `real`.
- **Value types.** Stored values and sorted-set members are generic types, not JSON dictionaries and strings.
  - The token bucket stores a `BucketState` record instead of the `{"tokens", "last_refill"}` dictionary.
- **Strategy interface.** The abstract strategy class is not modelled, because traits are not used here. The two strategies are classes with the same method shapes.
  - A response's immutability holds because it is a datatype value.
- **HTTP framework.**
  - Starlette's `call_next` is replaced by the downstream `HttpResponse` object passed to `Dispatch`.
  - `JSONResponse` rendering is reduced to the `DenialBody` value.
  - Header lookup uses exact names. Starlette's headers are case-insensitive.
  - The client address is only its host string.
- TokenBucket.TokenBucketStrategy.Check: requires limit > 0 and window > 0. The source divides by the window and, on a denial, by the refill rate, which is zero when the limit is 0. Negative limits and negative windows, which the source accepts without dividing by zero, are not modelled.
- Middleware.RateLimitMiddleware.Dispatch: requires limit > 0 and window > 0, because it calls the token-bucket check above.
- SlidingWindow.SlidingWindowStrategy.Check: keeps the source's choice of the timestamp as member. The corrected reading, with a member unique to each request, is the run of checks over `Tagged` requests, each logged under the pair (timestamp, request number); `NoBurstTagged` and `SameInstantTagged` are about it, and the class does not use it.
- MemoryBackend.InMemoryBackend.ZRange: equals the Redis reading `ZRangeOf` only when stop ≥ −len − 1. For lower stops it is stated only as the as-written slice.
- SlidingWindow.NoBurst: assumes the clock never goes back and every timestamp is at least 0, because the prune only removes scores from 0 upward.

## Findings

| source | as written | input that shows it | evidently intended | confidence | as-written member | corrected member |
|---|---|---|---|---|---|---|
| src/sentinel/core/backends/memory.py:247-259 | A negative stop is shifted by the length once. The result plus one then becomes a Python slice end, which Python shifts by the length again | zrange on a set of 3 members with start 0 and stop −5 returns the first 2 members | Redis semantics, as the interface documents: a stop before the first member gives an empty range | medium, not executed | SortedSet.RangeAsWrittenWrapsAround | SortedSet.RangeRedisInclusive |
| src/sentinel/core/strategies/sliding_window.py:116-118 | The member recorded for an allowed request is its timestamp. A second allowed check at the same timestamp therefore replaces the first one's entry instead of adding one | limit 2 and an empty log: any number n of checks on one key at the same `now` are all allowed | one log entry per allowed request; the code's comment says the timestamp was chosen for uniqueness | medium, not executed | SlidingWindow.SameInstantAsWritten | SlidingWindow.NoBurstTagged |
