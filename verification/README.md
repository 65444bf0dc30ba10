# Verified model of the distributed rate limiter

The repository answers "may this request go ahead?" for many tenants.  The
counting happens in two Lua scripts that run atomically in Redis; Go replicas
read their own clocks, call the scripts, and resolve which rule applies.  This
project models that core in Dafny and proves what it promises.

| file | part of the system |
|---|---|
| `SlidingWindow.dfy`, `SlidingWindowLog.dfy`, `SlidingWindowExpiry.dfy` | the sliding window counters, the unbounded log they stand for, and their shared deadline |
| `TokenBucket.dfy`, `TokenBucketExpiry.dfy` | the bucket's two numbers, the history they stand for, and the key's lifetime |
| `Replicas.dfy` | replicas that read a clock and only later run a script |
| `Redis.dfy` | the store's commands and both scripts line by line, as a class |
| `Keys.dfy`, `Limiter.dfy`, `SharedStore.dfy` | key names, the limiter front end, and runs of all tenants over one store |
| `SignupLog.dfy`, `SignupLimit.dfy`, `Forwarded.dfy` | the in-process signup limiter: what it must remember, the slices it remembers it in, and whom it charges |
| `RuleCache.dfy` | the per-tenant rule cache with overlapping loads |
| `Rules.dfy`, `StableSort.dfy`, `Resolver.dfy`, `Provisioning.dfy` | rules, the three ways of picking one, and the loop that accepts new rules |
| `CheckService.dfy` | one check from end to end |
| `Arith.dfy`, `Decisions.dfy`, `Text.dfy` | shared helpers |

How the parts fit: each script is a method of `Redis.Store` whose contract gives
the reply and the whole new store twice: in terms of the stored values
(`Redis.WindowStep`, `Redis.BucketStep`), and as a step of a cell
(`SlidingWindowExpiry.Cell`, `TokenBucketExpiry.Cell`).  Cells are proved to behave like counters without
expiry, and those like a limiter that remembers every admission.  Key names are
proved to be shared exactly by owners of one tenant whose digests agree, so a run
over the shared store splits into independent runs, and the theorems about one
counter hold for every counter of the shared store (`SharedStore`).

Conventions.  Runs are sequences of checks, oldest first; functions over runs
recurse on the last element.  The sliding window's comparison is multiplied
through by the window so that it stays in integers; tokens and refill are real
numbers.  A check carries the caller's reading and the store's own clock.  All
inductions are written out, so every lemma carries `{:induction false}`.

Where the code differs from what is written about it, the model follows the
code:

- README.md:50 says the sliding window has no burst at window boundaries.  The
  exact form is: at most the limit in every aligned window, at most
  limit + limit * (s - 1) / window in a span of one window's length that starts
  at offset s > 0, and this is reached (`SlidingWindowExpiry.BoundIsReached`).
- docs/adr/006-read-only-config-api.md:20 says the cache lifetime bounds
  staleness.  It does not once a load takes time; lifetime plus load delay does,
  and nothing less (`RuleCache.StalenessIsExact`).
- README.md:45 puts the longest prefix before the default.  A one-character
  prefix such as `/*` scores the same as `*`, and the earlier in the list wins
  (`Resolver.PrecedenceIsFollowed`, `Resolver.OrderMattersOnlyInTie`).
- The sliding window's `retry_after` reaches the next aligned window; the retry
  is allowed there only if the denied window's own count left room
  (`SlidingWindow.RetryReachesNextWindow`).
- CONTEXT.md:50 calls the reset time the moment of full recovery.  The bucket's
  `reset_at` floors its clock and rounds its wait up, and the bucket is full at
  it if and only if the first does not outweigh the second
  (`TokenBucket.FullAtResetIff`, `TokenBucket.ResetMayBeEarly`).  The window is
  fully recovered at its `reset_at` if and only if the window that has ended was
  granted nothing, and otherwise one window later
  (`SlidingWindowExpiry.StoredFullRecoveryIff`).
- docs/adr/002-redis-lua-atomicity.md:9-15 relies on atomic scripts alone.  Even
  on one perfect clock, overlapping calls can reach the store in any order that
  lets each script follow its reading (`Replicas.OneClockIff`).  Aligned windows
  keep their limit if and only if no script meets an index ahead of its own
  reading, or one ahead when the limit or the window is 1
  (`Replicas.SafeDepths`); with no bound on how far a check is overtaken, one
  window can be granted any multiple of the limit
  (`Replicas.AnyMultipleGranted`).
- internal/transport/http/middleware/signup_limit.go:38-40 takes its lock after
  the time was read.  A time that reaches the lock late may find admissions of
  its own window already forgotten: with a limit of at least two no lateness is
  harmless, with a limit of one only one clock unit is
  (`SignupLog.SafeLateness`).
- internal/infrastructure/redis/scripts/sliding_window.lua:32-34 keeps the keys
  for two windows of store time.  Keys dropped while they still count are seen
  (`SlidingWindowExpiry.EarlyDropIsSeen`).  As a bound on skew alone, all
  window-ordered runs get the full log's replies if and only if the store gains
  at most one second on the readings (`SlidingWindowExpiry.SlackIsOneSecond`);
  readings in any order are safe for exactly those two windows
  (`Replicas.SafeSpread`).

Some of the runs above spend a whole limit in one check.  The HTTP handler
refuses costs above 1,000,000 (internal/transport/http/handlers/check.go:35,
:96), so for larger limits they are inputs of the limiter and not of the service.

## Model

| member | source | states |
|---|---|---|
| Redis.Store.EvalSlidingWindow | internal/infrastructure/redis/scripts/sliding_window.lua:11-59 | the script, command by command, from any live, expired or missing keys: the four numbers and the three keys it leaves, in terms of the keys' old values, the reading and the cost, every other key untouched |
| Redis.Store.RotateKeys | internal/infrastructure/redis/scripts/sliding_window.lua:20-35 | rotation writes the carried or zeroed counters to all three keys under one deadline, or writes nothing |
| Redis.Store.ChargeKeys | internal/infrastructure/redis/scripts/sliding_window.lua:51-55 | an admission replaces the current count and renews the one deadline of all three keys |
| Redis.Store.RefillBucket | internal/infrastructure/redis/scripts/token_bucket.lua:15-27 | the tokens found: a full bucket for a missing key, otherwise refilled up to the capacity |
| Redis.Store.KeepBucket | internal/infrastructure/redis/scripts/token_bucket.lua:41-45 | what is left is stored with the reading; a positive rate renews the deadline, any other keeps it |
| Redis.Store.EvalTokenBucket | internal/infrastructure/redis/scripts/token_bucket.lua:8-54 | the script, command by command, from any live, expired or missing key and any rate: the four numbers and the key it leaves, in terms of the key's old values, every other key untouched |
| SlidingWindowLog.CountersRefineLog | internal/infrastructure/redis/scripts/sliding_window.lua:20-59 | in every run whose checks arrive window by window, in any order inside a window, the three counters give, at every check and in every field, the answer of a limiter that sums a full log for the current and previous aligned window |
| SlidingWindowExpiry.StoredReplyIs | internal/infrastructure/redis/scripts/sliding_window.lua:20-59 | every field of every reply of a window-ordered run with no keys dropped early, from the sums of what the earlier replies granted in the previous and the current aligned window: allowed if and only if before * (window - offset) + (sofar + cost) * window is at most limit * window |
| SlidingWindowExpiry.ScriptIs | internal/infrastructure/redis/scripts/sliding_window.lua:20-59 | from any stored keys, in any order of readings, the reply and the keys left in the keys' own fields; only a denied check of the stored window or an earlier one writes nothing |
| SlidingWindowExpiry.StoredRunAgrees | internal/infrastructure/redis/scripts/sliding_window.lua:20-55 | in any order of readings, expiring keys give the replies of counters that never expire, as long as every script meets keys that are alive or at least two windows behind its reading |
| SlidingWindowExpiry.ExpiryIsUnobservable | internal/infrastructure/redis/scripts/sliding_window.lua:20-55 | under that condition every window-ordered run gets the replies of the limiter that keeps the full log |
| SlidingWindowExpiry.SpacedNeverDropsEarly | internal/infrastructure/redis/scripts/sliding_window.lua:32-34 | the condition holds of every window-ordered run in which any two checks are within two windows of store time or two windows apart by their readings |
| SlidingWindowExpiry.EarlyDropIsSeen | internal/infrastructure/redis/scripts/sliding_window.lua:21-35 | a script that meets keys dropped any earlier grants a full limit, which the kept counters would grant only if none of them still counted |
| SlidingWindowExpiry.LateScriptSeesExpiry | internal/infrastructure/redis/rate_limiter.go:90-99 | for every configuration, a script 1001 ms late finds the keys gone and admits what the log denies |
| SlidingWindowExpiry.SlackIsOneSecond | internal/infrastructure/redis/rate_limiter.go:90-99 | for every configuration, all window-ordered runs whose skew is at most S refine the log if and only if S is at most 1000 ms |
| SlidingWindowExpiry.NoBoundaryBurst | internal/infrastructure/redis/scripts/sliding_window.lua:37-55 | for window-ordered runs with no keys dropped early, what the replies admit in one window's length from offset s: at most the limit if s is 0, at most limit + limit * (s - 1) / window otherwise, always less than twice the limit |
| SlidingWindowExpiry.BoundIsReached | internal/infrastructure/redis/scripts/sliding_window.lua:37-55 | for every configuration, window and offset some run whose scripts run on the clock they read is granted, by the script's own replies, exactly that bound rounded down |
| SlidingWindowExpiry.EvenTrafficStaysWithinLimit | internal/infrastructure/redis/scripts/sliding_window.lua:37-52 | if no tail of the previous window carried more than its proportional share, the true cost admitted in the trailing window's length is within the limit at every moment |
| SlidingWindowExpiry.DeniedLeaveNoTrace | internal/infrastructure/redis/scripts/sliding_window.lua:23-49 | deleting any set of denied checks of a window-ordered run leaves every field of every other reply unchanged, if neither run has keys dropped early |
| SlidingWindowExpiry.SpacedDeniedLeaveNoTrace | internal/infrastructure/redis/scripts/sliding_window.lua:23-49 | the same asking only that the original run's checks be pairwise within the keys' lifetime or two windows apart |
| SlidingWindow.RemainingIsExact | internal/infrastructure/redis/scripts/sliding_window.lua:44-59 | a further check at the same reading is allowed if and only if its cost is at most `remaining`, from any state |
| SlidingWindow.ResetEndsWindow | internal/infrastructure/redis/scripts/sliding_window.lua:39-59 | from any state `reset_at` is the first second outside the reading's aligned window, reached by `retry_after` exactly when the check is denied |
| SlidingWindow.RetryReachesNextWindow | internal/infrastructure/redis/scripts/sliding_window.lua:44-48 | `retry_after` ends exactly at the next aligned window, where the retry succeeds if and only if the denied window's count plus the cost is within the limit |
| SlidingWindow.RetryMayStillBeDenied | internal/infrastructure/redis/scripts/sliding_window.lua:44-48 | for every configuration, reading and cost, a full window denies its own retry |
| SlidingWindow.EstimateFalls | internal/infrastructure/redis/scripts/sliding_window.lua:23-42 | without admissions the weighted estimate never rises as time advances, across rotation |
| SlidingWindowExpiry.StoredAllowedStaysAllowed | internal/infrastructure/redis/scripts/sliding_window.lua:23-49 | a check that would be allowed stays allowed at every later reading while only denied checks intervene, across rotation and expiry |
| SlidingWindowExpiry.StoredFullRecovery | internal/infrastructure/redis/scripts/sliding_window.lua:44-58 | from one window after the last `reset_at` on, a cost is allowed if and only if it is at most the limit |
| SlidingWindowExpiry.StoredFullRecoveryIff | internal/infrastructure/redis/scripts/sliding_window.lua:44-58 | from the last `reset_at` on, a full limit is allowed if and only if the replies granted nothing in the last check's window or one window more has passed |
| SlidingWindow.FullRecoveryIff | internal/infrastructure/redis/scripts/sliding_window.lua:44-58 | from any state and at every reading from `reset_at` on, a full limit is allowed if and only if the current count is zero or one window more has passed |
| SlidingWindow.FullRecovery | internal/infrastructure/redis/scripts/sliding_window.lua:44-58 | for counters without expiry, from one window after the last `reset_at` on a cost is allowed if and only if it is at most the limit |
| TokenBucket.BucketDecidesAsHistory | internal/infrastructure/redis/scripts/token_bucket.lua:15-41 | in any order of readings a check is allowed if and only if, from every earlier check and itself, the cost admitted since plus its own fits into a full bucket refilled by the readings' upward steps since |
| TokenBucket.HistoryInOrder | internal/infrastructure/redis/scripts/token_bucket.lua:15-41 | for readings in order those upward steps are the time since that check |
| TokenBucketExpiry.StoredBucketDecidesAsHistory | internal/infrastructure/redis/scripts/token_bucket.lua:15-45 | the same for the key that expires, in any order of readings, as long as no check meets a key dropped before it would have refilled |
| TokenBucket.PoolIsLeastAllowance | internal/infrastructure/redis/scripts/token_bucket.lua:19-27 | in any order of readings the tokens at a check are the least allowance over its whole history, and some earlier check attains it |
| TokenBucketExpiry.ExpiryIsUnobservable | internal/infrastructure/redis/scripts/token_bucket.lua:19-45 | dropping the key after its lifetime gives the replies of a bucket never dropped, in any reading order, as long as neighbouring checks are within the lifetime or their readings leave time to refill |
| TokenBucketExpiry.SlackIsExact | internal/infrastructure/redis/scripts/token_bucket.lua:43-45 | for every configuration, all runs whose skew is at most S get those replies if and only if S is at most the lifetime less the refill time of an empty bucket, and a millisecond |
| TokenBucketExpiry.SlackAtLeast | internal/infrastructure/redis/scripts/token_bucket.lua:43-45 | that slack is from 60,001 to 61,000 ms |
| TokenBucket.AfterSane | internal/infrastructure/redis/scripts/token_bucket.lua:19-41 | tokens stay between zero and the capacity in every reachable state, for any order of readings |
| TokenBucket.SegmentBound | internal/infrastructure/redis/scripts/token_bucket.lua:19-41 | the cost admitted over any segment is at most capacity plus the refill of the readings' upward steps, which for ordered readings is the refill of first to last |
| TokenBucketExpiry.StoredSegmentBound | internal/infrastructure/redis/scripts/token_bucket.lua:19-45 | the same for the stored key in any reading order, as long as no neighbouring checks let it be dropped before it would have refilled |
| TokenBucketExpiry.DeniedLeaveNoTrace | internal/infrastructure/redis/scripts/token_bucket.lua:19-45 | deleting any set of denied checks of an ordered run leaves every field of every other reply unchanged, if neither run has the key dropped early |
| TokenBucketExpiry.SpacedDeniedLeaveNoTrace | internal/infrastructure/redis/scripts/token_bucket.lua:19-45 | the same asking only that the original run's checks be pairwise spaced |
| TokenBucket.PoolComposes | internal/infrastructure/redis/scripts/token_bucket.lua:22-27 | refilling under the cap in two steps equals refilling in one |
| TokenBucket.RemainingIsExact | internal/infrastructure/redis/scripts/token_bucket.lua:32-47 | a further check at the same reading is allowed if and only if its cost is at most `remaining`; an allowed check has no `retry_after` |
| TokenBucketExpiry.StoredRetryHolds | internal/infrastructure/redis/scripts/token_bucket.lua:32-45 | a denied check of at most the capacity is allowed again exactly from its `retry_after` on, whatever denied checks intervene and whether or not the key expired |
| TokenBucket.RetryCoversMissing | internal/infrastructure/redis/scripts/token_bucket.lua:35-39 | for every denied check, even of a cost that can never fit, `retry_after` is the least whole number of seconds whose refill covers what is missing |
| TokenBucket.RetryIsLeast | internal/infrastructure/redis/scripts/token_bucket.lua:35-39 | `retry_after` is the least whole number of seconds after which the check succeeds (delay-seconds, section 10.2.3 of RFC 9110), and at least one |
| TokenBucketExpiry.ScriptIs | internal/infrastructure/redis/scripts/token_bucket.lua:15-54 | from any stored key and for any rate, the reply and the key left in the key's own fields, the lifetime a minute more than the least whole seconds in which an empty bucket fills |
| TokenBucket.TooLargeIsDenied | internal/infrastructure/redis/scripts/token_bucket.lua:19-39 | a cost above the capacity is denied in every state |
| TokenBucket.ResetWithinOneSecond | internal/infrastructure/redis/scripts/token_bucket.lua:48-52 | the bucket is full at every reading from just under a second after `reset_at` on and not full until a second before it |
| TokenBucket.ResetNearFullInstant | internal/infrastructure/redis/scripts/token_bucket.lua:48-52 | `reset_at` differs from the exact instant of a full bucket by less than one second either way |
| TokenBucket.FullAtResetIff | internal/infrastructure/redis/scripts/token_bucket.lua:48-52 | from every reachable bucket, the bucket is full at its own `reset_at` if and only if nothing was missing or the fraction of a second dropped from the clock is at most what rounding up the wait added |
| TokenBucket.ResetMayBeEarly | internal/infrastructure/redis/scripts/token_bucket.lua:48-52 | an instance: a concrete bucket that is not full at its own `reset_at` |
| Replicas.AnyInterleavingIsSafe | internal/infrastructure/redis/rate_limiter.go:90-99 | under every interleaving of clock readings and scripts, with any clocks, as long as no script meets keys dropped early each stored index is charged at most the limit by the stored keys and the stored index never falls |
| Replicas.EachReadingOnce | internal/infrastructure/redis/rate_limiter.go:90-99 | no clock reading serves two scripts |
| Replicas.StoredChargesBounded | internal/infrastructure/redis/scripts/sliding_window.lua:20-55 | for any order of readings on keys never dropped early, the stored current count equals what the stored index was charged, later indices have nothing, none exceeds the limit |
| Replicas.SafeSpread | internal/infrastructure/redis/scripts/sliding_window.lua:32-34 | for every configuration, readings in any order never charge an index more than the limit while all scripts run within T ms of each other if and only if T is at most two windows |
| Replicas.ConcurrentUnitChecks | test/concurrency/rate_limiter_test.go:17-64 | N concurrent unit checks on a missing key, read in one window, are allowed exactly min(N, limit) times by the stored keys in every interleaving in which no script meets keys dropped early |
| Replicas.WindowOrderedReplicasObeyBounds | internal/infrastructure/redis/rate_limiter.go:90-99 | replicas whose calls overlap in any way obey the bounds of a single limiter as long as no script meets an index ahead of its own reading or keys dropped early |
| Replicas.SafeDepths | docs/adr/002-redis-lua-atomicity.md:9-15 | exact condition: with all readings and scripts on one perfect clock and no keys dropped early, scripts that meet an index at most d ahead of their reading keep every aligned window within its limit if and only if d is 0, or d is 1 and the limit or the window is 1 |
| Replicas.OneClockIff | internal/infrastructure/redis/rate_limiter.go:90-99 | on one clock for all readings and scripts, the store can see a sequence of checks if and only if its scripts run in order and each after its own reading |
| Replicas.OvertakenAdmittedIff | internal/infrastructure/redis/scripts/sliding_window.lua:39-49 | over a full window that has just become the previous one, a late check read at offset e of it is admitted if and only if cost * window is at most limit * e |
| Replicas.AnyMultipleGranted | internal/infrastructure/redis/scripts/sliding_window.lua:20-55 | for every configuration and m, overlapping calls on one clock for readings and scripts make keys that are never dropped early grant one aligned window (m + 1) * limit |
| Keys.KeyTexts | internal/infrastructure/redis/keys.go:19-46 | the texts of all four keys from tenant, route and subject |
| Keys.CaseAndBlanksShare | internal/infrastructure/redis/keys.go:20-33 | routes that differ only in case or surrounding blanks, and subjects that differ only in surrounding blanks, use the same keys |
| Keys.NamesIdentify | internal/infrastructure/redis/keys.go:19-46 | for any digest of width 16, key names coincide exactly for the same tenant, route digest and subject segment, are disjoint otherwise, and never coincide across the algorithms |
| Keys.SharingIsCollision | internal/infrastructure/redis/keys.go:14-33 | two owners share a counter if and only if they have one tenant and each of their texts that differs collides; a subject never shares with no subject, nor a tenant with another |
| Keys.OwnersKeepApart | internal/infrastructure/redis/keys.go:14-33 | among keys whose texts do not collide, sharing a counter is having the same tenant, folded trimmed route and trimmed subject |
| Keys.SoundHashingExists | internal/infrastructure/redis/keys.go:14-17 | sixteen hexadecimal digits suffice: for any 16^16 texts there is a digest of that width that keeps them apart |
| Limiter.RateLimiter.Check | internal/infrastructure/redis/rate_limiter.go:57-125 | one script step on the key's own entries with the rule's own numbers, in milliseconds for the bucket and whole seconds for the window, a cost below one counted as one; the decision carries the reply and the algorithm's limit; an unknown algorithm is an error and writes nothing; every entry of the store keeps its expected type |
| Limiter.OneCall | internal/infrastructure/redis/rate_limiter.go:57-125 | the same of every step of a run over the shared store |
| Limiter.WireRoundTrip | internal/infrastructure/redis/rate_limiter.go:106-125 | a script's four numbers come back as the decision's fields with the limit of the rule's algorithm, and a shorter reply is refused |
| Limiter.WirePositions | internal/infrastructure/redis/rate_limiter.go:106-125 | any four or more numbers are read as allowed, remaining (never negative), reset and retry in that order |
| Limiter.OneKeepsWellFormed | internal/infrastructure/redis/rate_limiter.go:57-104 | no call by any owner leaves a value of the wrong type, or three window keys out of step, under any owner's names |
| Limiter.Isolated | internal/infrastructure/redis/rate_limiter.go:57-104 | in any run over the shared store, whatever the digest, the requests charged to one counter get the decisions they would get alone |
| SharedStore.SharedWindowRefinesLog | CONTEXT.md:10-13 | whatever else the shared store serves, and however other counters' clocks behave, one counter's decisions are those of a limiter that keeps that counter's whole log, for window-ordered requests that meet no keys dropped early |
| SharedStore.MineIsOwn | CONTEXT.md:10-13 | where the texts in play do not collide, the requests charged to a counter are exactly those of its tenant, route and subject |
| SharedStore.SharedWindowDecision | internal/infrastructure/redis/rate_limiter.go:57-104 | every field of a counter's n-th decision from the costs, times and earlier decisions of its own requests and the rule's numbers |
| SharedStore.SharedWindowNoBurst | README.md:50 | the admission bounds for the decisions one counter gets from the shared store |
| SharedStore.SharedBucketDecidesAsHistory | README.md:49 | in the shared store a bucket's check is allowed if and only if that counter's own history leaves room, in any order of its readings |
| SharedStore.SharedBucketDecision | internal/infrastructure/redis/rate_limiter.go:57-104 | a request is allowed if and only if, from each earlier own request and itself on, the granted costs and its own fit into the rule's capacity plus refill rate times the upward steps of the requests' milliseconds |
| SignupLimit.SignupLimiter.Allow | internal/transport/http/middleware/signup_limit.go:38-64 | over the object's whole history of calls with times in order, allowed if and only if fewer than its limit of the calls it has granted this client lie in (now - window, now]; more than 10,000 clients are remembered after an admission only if all are recent; no array is shared between clients |
| SignupLimit.Compact | internal/transport/http/middleware/signup_limit.go:42-48 | compaction into the slice's own backing array equals filtering a copy |
| SignupLimit.Append | internal/transport/http/middleware/signup_limit.go:54 | appending in place or into a larger copy yields the old times and the new one |
| SignupLimit.SignupLimiter.Sweep | internal/transport/http/middleware/signup_limit.go:56-62 | the sweep removes exactly the clients with no time or a last time before the cutoff |
| SignupLog.AllowsExactly | internal/transport/http/middleware/signup_limit.go:38-64 | an attempt is allowed if and only if fewer than the limit of that client's admissions lie in (now - window, now] |
| SignupLog.RunRemembers | internal/transport/http/middleware/signup_limit.go:42-62 | every remembered list is sorted and, for every cutoff a later call can use, equivalent to the full log |
| SignupLog.NeverMoreThanLimit | internal/transport/http/middleware/signup_limit.go:50-54 | no interval of the window's length ever holds more than the limit of one client's admissions |
| SignupLog.SafeLateness | internal/transport/http/middleware/signup_limit.go:38-62 | exact condition, for every limit, window and sweep threshold: the limit holds in every interval of every run whose times reach the lock at most d late if and only if d is 0, or d is 1 and the limit is 1, or the limit or the window is 0 |
| SignupLog.LateCallOverAdmits | internal/transport/http/middleware/signup_limit.go:38-54 | for every limit of at least two and every window, one time that is one unit late is admitted beyond the limit |
| SignupLog.TwoLateOverAdmits | internal/transport/http/middleware/signup_limit.go:54-62 | under a limit of one, whatever the sweep threshold, a sweep lets a time that is two units late in |
| SignupLog.SweepNeverMatters | internal/transport/http/middleware/signup_limit.go:56-62 | the answers of a run are the same whatever number of clients starts a sweep |
| Forwarded.SplitAndTrim | internal/transport/http/middleware/signup_limit.go:82-95 | the loop yields the trimmed nonempty comma-separated fields |
| Forwarded.TrimSpace | internal/transport/http/middleware/signup_limit.go:97-105 | the two loops compute the trimmed string |
| Forwarded.PartsJoin | internal/transport/http/middleware/signup_limit.go:82-95 | splitting a + "," + b is splitting a, then b |
| Forwarded.PartsAreClean | internal/transport/http/middleware/signup_limit.go:82-105 | every part is nonempty, comma-free and has no blank at either end |
| Forwarded.ClientOf | internal/transport/http/middleware/signup_limit.go:66-80 | the last part of a trusted header if it has one; without trust, or when the header is only commas and blanks, the host or the whole remote address |
| Forwarded.LastHopDecides | internal/transport/http/middleware/signup_limit.go:66-80 | behind a proxy a nonblank last hop alone decides who is charged; without one the header never matters |
| Forwarded.LastHopIsCharged | internal/transport/http/middleware/signup_limit.go:66-80 | behind a proxy, the last hop that is not blank is charged without its blanks, whatever stands before it and whatever commas and blanks follow |
| Forwarded.ConnectionIsCharged | internal/transport/http/middleware/signup_limit.go:75-79 | without trust, or when the header is only commas and blanks, the connection's host is charged, or the whole remote address when that does not split |
| Text.TrimCutsOnlyBlanks | internal/transport/http/middleware/signup_limit.go:97-105 | what trimming leaves is the middle of the string, and only blanks were around it |
| Text.TrimAround | internal/transport/http/middleware/signup_limit.go:97-105 | trimming takes off whatever blanks are put around a text that neither starts nor ends with one |
| Text.SpacesAre | internal/infrastructure/redis/keys.go:20-33 | the blanks trimmed from routes, subjects and patterns, by code point |
| RuleCache.Cache.Get | internal/infrastructure/cache/rule_cache.go:54-62 | over everything ever put into the cache, a hit if and only if the tenant's last put is at most one lifetime old, serving that put's list |
| RuleCache.Cache.Set | internal/infrastructure/cache/rule_cache.go:64-71 | from then on this is the tenant's last put, and every other tenant's is what it was |
| RuleCache.LatestIsLast | internal/infrastructure/cache/rule_cache.go:64-71 | the last put is the one after which the tenant has no other |
| RuleCache.Cache.ListByTenant | internal/infrastructure/cache/rule_cache.go:37-48 | an uninterrupted call serves the list put last while that is at most a lifetime old, else the loaded list, which becomes the last put; a failed load puts nothing |
| RuleCache.LastStoreIsServed | internal/infrastructure/cache/rule_cache.go:37-71 | under any interleaving of misses, repository reads and stores, a lookup serves exactly the list stored last for the tenant, for exactly one lifetime |
| RuleCache.FailureIsNeverCached | internal/infrastructure/cache/rule_cache.go:42-45 | whatever follows a failed load, that call has nothing to store unless it misses again |
| RuleCache.MissedCallIsServed | internal/infrastructure/cache/rule_cache.go:37-48 | whatever other calls do in between, a call that finds no current list is served what the repository answered it, and stores that |
| RuleCache.FoundIsNotLoaded | internal/infrastructure/cache/rule_cache.go:38-40 | a lookup that finds a current list starts no load |
| RuleCache.StalenessBound | internal/infrastructure/cache/rule_cache.go:37-71 | under any interleaving of overlapping misses, reads and stores every list served was the repository's at some instant at most lifetime plus load delay ago |
| RuleCache.StalenessIsExact | internal/infrastructure/cache/rule_cache.go:37-71 | lists served are at most B old in every timely run with load delays up to D if and only if B is at least lifetime plus D |
| RuleCache.OtherTenantsUntouched | internal/infrastructure/cache/rule_cache.go:37-71 | over any further steps a tenant's lookups answer as before until a load of that tenant is stored |
| RuleCache.LifetimeAloneIsNoBound | docs/adr/006-read-only-config-api.md:20 | for every lifetime and positive delay, a timely run in which a slow load overwrites a newer one and is served lifetime plus delay after it was last current |
| Resolver.Resolve | internal/application/rule_resolver.go:14-34 | the scan returns the reference choice, and nothing if and only if no enabled rule matches |
| Resolver.NoChoiceMeansNoMatch | internal/application/rule_resolver.go:14-34 | what is chosen is enabled, matches, and scores at least as high as every enabled match |
| Resolver.ChoiceIsEarliestBest | internal/application/rule_resolver.go:14-34 | the choice stands in the list where the best score among enabled matches first occurs |
| Resolver.ConsoleAgrees | web/src/api.js:105-121 | the first entry of any stable descending sort of the console's candidates is the server's choice |
| Resolver.DashboardAgrees | web/src/components/ProjectDetail.jsx:57-64 | the first enabled match in any stable sort by the route-blind score is the server's choice, for every route |
| Resolver.SortedListsExist | web/src/components/ProjectDetail.jsx:57-64 | both sorted lists exist for every rule list |
| Resolver.OrderMattersOnlyInTie | internal/application/rule_resolver.go:14-34 | with distinct patterns the choice is the same for every order of the list if and only if `*` and a one-character prefix are not tied for the route |
| Resolver.PrecedenceIsFollowed | README.md:45 | the choice follows the documented precedence if and only if a tied `*` is not the first candidate in the list |
| Rules.MatchingIs | internal/domain/entity/rule.go:55-104 | a text and a star matches exactly what starts with the text, any other pattern only itself; the scores are 1000 plus the length, the length before the star, one, or zero |
| Rules.ValidIff | internal/domain/entity/rule.go:24-52 | a rule is valid if and only if it has a tenant, a pattern that is not blank, and positive numbers for its own known algorithm |
| Rules.ComplaintIs | internal/domain/entity/rule.go:24-52 | each complaint is made exactly when it is the first that applies |
| Rules.ScoresAgree | internal/domain/entity/rule.go:55-104 | a score is positive exactly when the pattern matches, and then the server's, console's and dashboard's scores are equal |
| Rules.ScoreFollowsPrecedence | internal/domain/entity/rule.go:91-104 | among matching patterns the score orders exact over prefix over default and longer over shorter for routes of any length; the only tie of different patterns is `*` with a one-character prefix |
| Provisioning.CheckRules | internal/application/provisioning_service.go:55-76 | the loop reports the first offending rule or acceptance, and rewrites in place exactly the rules up to it |
| Provisioning.AcceptedIff | internal/application/provisioning_service.go:55-76 | rules are accepted if and only if there are 1 to 50, all valid, with distinct trimmed patterns; the verdict is unique |
| Provisioning.VerdictIs | internal/application/provisioning_service.go:55-76 | in the rules' own fields: accepted if and only if there are 1 to 50, a tenant, every rule is well posed and no trimmed pattern is taken; otherwise the first failing rule is named, a taken pattern before anything else |
| Provisioning.RewrittenIs | internal/application/provisioning_service.go:64-66 | rules up to the first offender get the tenant and the trimmed pattern, the rest nothing |
| Provisioning.AcceptedRulesResolveUniquely | internal/application/provisioning_service.go:63-76 | stored rules resolve the same in every order for every route without a tie |
| CheckService.Service.Check | internal/application/check_service.go:30-54 | no rules: an error; no enabled match: allowed with every field zero and the store untouched; otherwise one limiter step under the governing rule with the caller's cost, its success passed on and any error turned into an unavailable backend; the cache after the call |

## Left out

- Replicas.AnyInterleavingIsSafe: asks that no script meets keys dropped early; how long that lasts, and that more is admitted afterwards, is Replicas.SafeSpread.
- TokenBucketExpiry.StoredSegmentBound: says nothing of runs in which the key is dropped before it would have refilled; that such drops are seen is TokenBucketExpiry.SlackIsExact.
- Redis.Store.EvalSlidingWindow: costs, counts and readings are unbounded integers and the estimate is exact; the script's floating point and the store's number-to-text conversion are not modelled.
- Redis.Store.EvalTokenBucket: tokens are exact real numbers; rounding in Lua and in the stored text is not modelled.
- Keys.NamesIdentify: SHA-256 and the Unicode case folding are parameters, of which only the digest's width is assumed; collisions are named in Keys.SharingIsCollision and not bounded in probability.
- Limiter.RateLimiter.Check: a failing or unreachable store is not modelled beyond a reply that is too short; window rules are taken to have positive numbers, as rule validation requires.
- SharedStore.SharedWindowRefinesLog: one fixed rule per counter; two rules that share a counter because the route hash folds case or collides, and rules changed while a counter lives, are outside it (Limiter.Isolated allows both).
- Resolver.ConsoleAgrees: pattern lengths are counted in one character unit, although the server counts bytes and the browser UTF-16 units.
- RuleCache.Cache.ListByTenant: the method is one uninterrupted call; calls that overlap, each lock section one atomic step, are the steps of RuleCache.Apply.
- Forwarded.ClientOf: splitting host and port is the standard library's; its result is a parameter.
- SignupLog.AllowsExactly: asks that times reach the lock in order, although they are read before it is taken; what lateness does is SignupLog.SafeLateness.
- Project names, key hashes, roles and key storage in project creation: one-branch checks.
- HTTP handlers, authentication, metrics, logging, configuration, PostgreSQL repositories and migrations, example services and the React pages except one comparator: plumbing without deep state.
