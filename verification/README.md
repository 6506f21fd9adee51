# Verified models of go-monobank-sdk

Dafny models of the logic the SDK owns, with proofs about all inputs and all runs:

- **Draining statements.** `bank.DrainWindow`, the 31-day tiling over it (`TransactionsRange` and
  `TransactionsRangeIter`, the same program in the personal and corporate clients) and the other cursor,
  `business.StatementAll`. The server is a finite statement answered by newest-first pages of limited size.
  `Statement` states what a page is, in any order inside a second; `FixedOrder` is the server with one order.
  The loops are methods; what they do is an event trace (requests, rows, error), and the theorems are about traces.
- **Throttling and retrying.** The token bucket, the keyed buckets and their eviction, backoff, the retry loop and
  the attempt loop of `Client.Do`.
- **Webhooks.** Key refresh as a protocol of interleaved steps, the LRU deduper, the delivery rule, and both handlers.
- **Exact money.** `Add`, `Sub`, `Mul` and `ParseMajor` in wrapping int64 arithmetic; the installment amount's
  printer and parser.
- **Reconciliation** of a bank statement with local records, and the **brace scanner** of `check-spec-drift.py`
  over JSON texts (sections 2 to 7 of RFC 8259).

Module by module: `Wrappers`, `Collections` and `Numbers` are shared; `Statement`, `DrainWindow`, `DrainProperties`, `FixedOrder`,
`Ranges`, `RangeProperties`, `BusinessIter` and `BusinessProperties` are the first group; `RateLimit`, `KeyedLimit`,
`Eviction`, `EvictionLimits` and `Retry` the second; `Refresh`, `Dedup`, `Delivery` and `Handlers` the third; `Money`, `ParseMajor` and
`InstallmentMoney` the fourth; `Reconcile` and `SpecScanner` the last.

A type of function stands for each outside party: `Fetcher` gives the k-th answer of the server, `wants` tells whether
the consumer goes on after the rows it has had, `provider(i)` is the i-th answer of the key provider, `dice(n)` is a
random number below n, and clock readings are arguments. Instants are nanoseconds since 1970, as integers.

## Where code and documentation differ

The model follows the code.

- `bank/statement.go:41-47` says that only rows past the cap inside one second are lost. The loop also stops before
  everything older, and it does so at exactly 500 rows (`DrainProperties.DrainStopsAtFullSecond`,
  `FixedOrder.FixedDrainIsPrefix`). Which statements are never cut is `FixedOrder.DrainCompleteIff`.
- `business/iter.go:59-66` promises the rest of an overflowing second. From a server that keeps one order, the page
  fetched again brings nothing new, and a cut inside a second followed by the one-second shift at lines 138-146 loses rows too
  (`BusinessProperties.CutLosesNextRow`); pages of one row yield one row (`PageSizeOneYieldsOne`).
- `personal/client.go:94` says "zero or earlier than from"; equal endpoints also give nothing
  (`RangeProperties.AsksNothingIff`).
- Endpoints with fractions of a second: the second of `to` is missed in exactly the case of
  `RangeProperties.LastSecondMissedIff`.
- `README.en.md:444` says that the limiter is consulted once per `Do`; the code consults it once per attempt.
  `README.en.md:338` says full jitter; the code has equal jitter.
- The backoff is min(base * 2^n, ceiling), except for n = 62, base = 1 and a ceiling above 2^62
  (`Retry.GrownIsExactIff`).
- `acquiring/handler.go:22-26` describes a guard against floods of key requests. Two requests with a refresh recorded
  between them are 30 s apart; without one, every request from the first until the second failed
  (`Refresh.HeldApartUnlessFailing`). So a stretch of time t has at most 1 + t/30 s requests and the failures
  in it (`CallsAreBounded`), and failures are not limited (`FailuresAreNotThrottled`).
- `lastAccess` of a keyed bucket is the time of arrival, not of the last grant, and `evictIdle` does not ask whether
  anyone waits (`ratelimit.go:207-215`). A sweep goes unnoticed whatever follows if and only if each bucket it takes is
  full and nobody waits on it (`EvictionLimits.SweepUnnoticedIff`, and `AllUnnoticedIff` for all sweeps of a run); replacing a
  bucket with a waiter shows even when it is full (`HeldIsNoticed`). Time alone ensures the first half only: after
  burst*every since the last use a bucket is full (`Eviction.IdleSweepsAreFull`), but idleTTL counts from the last
  arrival, so for every idleTTL there is a run in which eviction is noticed, even with nobody waiting
  (`EvictionLimits.ArrivalTimeIsNotLastUse`).
- `money.ParseMajor` reports some overflows only. The digit loop's test reports a whole part exactly when the wrapped
  value goes down at some digit (`ParseMajor.Drops`): always from 2^63 up to 2^64 (`NextBlockDrops`), but not, say,
  45 * 10^18 (`UnnoticedWholePart`). The shift into minor units is not tested at all (`UncheckedShift`). Besides, -2^63
  in a currency without decimals is refused although it fits.
- `installment/money.go:116` says that what is not a decimal is refused. The parser looks only at the first two
  characters of the kopeck part, and each part may have a sign of its own: `1.12x` is 113 and `1.-5` is 95
  (`InstallmentMoney.AcceptedAnyway`). Which strings it accepts, and which of those are decimals, is
  `AcceptsIff` and `AcceptedIsDecimalIff`, and what each is read as `AcceptedValue`; the decimals are read exactly as long
  as they fit (`DecimalsAreExact`).
- The installment amount printed and parsed back is itself, except for the smallest int64
  (`InstallmentMoney.RoundTripIff`). A written number whose kopecks leave int64 while its whole part fits wraps
  without an error (`WrittenParsed`).

## Model

| member | source | states |
|---|---|---|
| DrainWindow.Drain | bank/statement.go:48-102 | The loop terminates and does exactly the run `DrainTrace`, cut after the first row its consumer declines; the error returned is the failing request's, and no request follows it. |
| DrainWindow.YieldPage | bank/statement.go:65-74 | The rows of a page not yet seen reach the consumer in order until it declines, and their number is counted. |
| DrainWindow.Progress | bank/statement.go:81-100 | Why the loop ends: a full page with a new row moves the bound to an older second of the window or leaves fewer unseen rows at the same one. |
| DrainProperties.DrainShape | bank/statement.go:23-45 | For any tie order in each answer and wherever a request fails: no row twice, newest first, only rows of the window, and nothing left out that is newer than a row given. |
| DrainProperties.AsksAgainIff | bank/statement.go:76-84 | After an answer the server is asked again if and only if it had 500 rows, at least one of them not seen before. |
| DrainProperties.DrainReach | bank/statement.go:76-100 | For any tie order, without failures: all rows when no second holds 500; otherwise all newer than the newest such second, at least 500 of it and nothing older. |
| DrainProperties.DrainIsComplete | bank/statement.go:23-48 | With fewer than 500 rows in every second, the window's rows exactly, each once, newest first. |
| DrainProperties.DrainStopsAtFullSecond | bank/statement.go:41-47 | With a full second: everything newer, at least 500 rows of it, nothing older, against the comment's promise. |
| FixedOrder.ServesHonestly | bank/statement_test.go:33-46 | The server that lists its rows in one order keeps the page contract. |
| FixedOrder.FixedDrain | bank/statement.go:48-102 | Loop invariant with a fixed order: from any boundary second with its first m rows seen, the rest of the reachable rows follows in the window's order. |
| FixedOrder.FixedDrainIsPrefix | bank/statement.go:76-100 | With a fixed order the output is a prefix of the window, ending after the 500th row of the newest second that holds so many, or the whole window. |
| FixedOrder.FixedDrainCompleteIff | bank/statement.go:76-84 | Nothing is lost if and only if no 500 rows of one second have another row after them. |
| FixedOrder.DrainCompleteIff | bank/statement.go:23-102 | Over every tie order: all servers that do not fail let the window through whole if and only if no second of it holds 500 rows with another row of the window at or before it. |
| Ranges.TransactionsRange | personal/client.go:102-129 | The eager loop collects exactly the rows of the full run, or returns the error that ended it and no rows. |
| Ranges.TransactionsRangeIter | personal/iter.go:30-69 | The lazy loop does the same run, with the context checked before each window, cut after the first row its consumer declines. |
| RangeProperties.WindowsTile | personal/client.go:107-127 | The windows are consecutive seconds, each 31 days long but the last, which is no longer, from the second of `from` to that of `to` or one short of it. |
| RangeProperties.LastSecondMissedIff | personal/client.go:74-127 | The second of `to` is missed exactly when it is a positive multiple of 31 days plus a second after that of `from` and has the smaller fraction; nothing else is. |
| RangeProperties.RangeIsExact | personal/client.go:102-129 | For any endpoints, tie order and start, with seconds under 500 rows and no failure: each row of the seconds asked for exactly once, blocks ascending, rows inside a block descending. |
| RangeProperties.RangeGivesRows | personal/client.go:102-129 | The same from the guard on: for every `from` before `to`, fractions of a second included, and `to` not the zero time. |
| RangeProperties.AsksNothingIff | personal/iter.go:34-36 | No request, no row and no error, if and only if the endpoints are equal or reversed or `to` is the zero time. |
| RangeProperties.TransactionsRangeExactlyOnce | personal/client.go:90-129 | On whole-second endpoints and seconds under 500 rows: each row of [from, to] exactly once, nothing else, in that order. |
| RangeProperties.RangeCalls | personal/client.go:107-127 | Every request lies in one of the windows, and an error comes once and last. |
| RangeProperties.CancelledIsPrefix | personal/iter.go:38-41 | A context cancelled at some window leaves a prefix of the rows; one never cancelled leaves the run as it is. |
| RangeProperties.LazyRefinesEager | personal/iter.go:33-68 | By the contracts of both methods: a consumer that stops after n rows has the first n of the eager list, the n-th being the last thing that happened; an error comes once and last; one that wants more sees the eager run's requests, rows and error. |
| BusinessIter.StatementAll | business/iter.go:67-149 | The loop terminates and does exactly the run `StatementTrace`, cut after the first row its consumer declines. |
| BusinessIter.MoveShrinks | business/iter.go:107-146 | Each new bound lies in an older second, or in the same one with fewer unseen rows. |
| BusinessProperties.StatementShape | business/iter.go:67-149 | For any tie order, failing request or cancelled context: no row twice, newest first, only rows of the range, every request inside it, and an error once and last. |
| BusinessProperties.StatementRows | business/iter.go:67-149 | With a fixed order the rows of the run are those of the closed form `Yielded`, and nothing fails. |
| BusinessProperties.RowsPageByPage | business/iter.go:96-146 | What is yielded from any cursor on: the newest page; no more if it lies in one second and is as long as asked for, or no size was asked for; else what is yielded from the second before its last row on. |
| BusinessProperties.DefaultSizeStops | business/iter.go:115-126 | With the default page size, a first page of one second is all there is, however short. |
| BusinessProperties.YieldedShape | business/iter.go:96-105 | No id twice, newest first, only rows of the range. |
| BusinessProperties.LossReason | business/iter.go:110-146 | A row that is missing is at the second of `from`, shares the second of the last row of a full page, or is older than a full page of one second. |
| BusinessProperties.CompleteIff | business/iter.go:67-149 | Every row later than `from` is yielded if and only if no page visited is cut inside a second or is one at which the loop stops, with a later row than `from` behind it. |
| BusinessProperties.DistinctSecondsAreLossless | business/iter.go:107-146 | With at most one row per second and pages of two or more, that condition holds. |
| BusinessProperties.StatementAllComplete | business/iter.go:67-149 | So every row later than the second of `from` arrives once, newest first. |
| BusinessProperties.CutLosesNextRow | business/iter.go:59-66 | The row after a page is lost whenever the cut is inside a second, or the page is of one second and taken for full, against the comment. |
| RateLimit.Limiter.constructor | ratelimit.go:45-55 | A full bucket; a burst below one counts as one. |
| RateLimit.Limiter.Attempt | ratelimit.go:67-82 | One locked pass refills, caps, takes a token or names the sleep. |
| RateLimit.Limiter.Wait | ratelimit.go:59-92 | A caller alone: granted at the first wake-up at which a token is there, refused if and only if there is none at any; no limit means at once, a cancelled context never, and both leave the bucket alone. |
| RateLimit.AfterHolds | ratelimit.go:67-78 | 0 <= tokens <= burst after any run of attempts. |
| RateLimit.GrantBound | ratelimit.go:66-91 | In any stretch of any run by any callers, at most burst + elapsed/every grants; the grants past the burst, times `every`, are no more than the time elapsed. |
| RateLimit.ConservedIff | ratelimit.go:67-78 | Over any run the tokens granted and left are at most those there at first plus those that flowed in, and equal to them if and only if the bucket never overflowed. |
| RateLimit.GrantsAtLeast | ratelimit.go:66-91 | While it does not overflow, all those tokens but one burst are granted, and all but less than one if the last attempt was refused. |
| RateLimit.BusyKeyIsServed | ratelimit.go:66-91 | Whatever overflows, a key tried again at most `gap` after each attempt gets at least one grant in every `every` + `gap`. |
| RateLimit.RefusalsAreShort | ratelimit.go:66-91 | Attempts refused in a row span less than `every`. |
| RateLimit.SleepIsTight | ratelimit.go:80-84 | Undisturbed, an attempt before the end of the sleep is refused and one a nanosecond after it is granted. |
| KeyedLimit.KeyedLimiter.BucketFor | ratelimit.go:231-241 | The key's limiter, one with burst tokens made if missing, its access time set; every other key's bucket untouched. |
| KeyedLimit.KeyedLimiter.EvictIdle | ratelimit.go:207-215 | Exactly the buckets idle for more than idleTTL go, in whatever order they are visited; the others are untouched. |
| KeyedLimit.KeyedLimiter.WaitKey | ratelimit.go:220-222 | A caller alone is served by the bucket of its key as by a limiter of its own, cancelled or unlimited or not, and no other key's bucket changes. |
| Eviction.StepMirrors | ratelimit.go:207-241 | Each step of any caller or sweep keeps a key's bucket equal to its never-evicted one, or both full. |
| Eviction.FollowsReference | ratelimit.go:59-92 | So from any such state the rest of the run answers the key like that limiter. |
| Eviction.EvictionTransparent | ratelimit.go:190-241 | In every interleaving whose sweeps take only full buckets nobody waits on, each key's answers are those of its own never-evicted limiter, whatever other keys do. |
| Eviction.KeyRate | ratelimit.go:116-134 | In such a run each key by itself keeps the rate: at most burst + elapsed/every grants in any stretch of its attempts. |
| Eviction.IdleSweepsAreFull | ratelimit.go:207-215 | Sweeps that take only buckets unused for burst*every take only full ones. |
| EvictionLimits.ReplaceUnnoticedIff | ratelimit.go:231-236 | One bucket by itself, with nobody holding it: a fresh one in its place changes no later answer if and only if it had filled up. |
| EvictionLimits.HeldIsNoticed | ratelimit.go:207-215 | With somebody holding it, a fresh one always shows: a burst of newcomers and the holder get more at once than the bucket would have granted. |
| EvictionLimits.SweepUnnoticedIff | ratelimit.go:207-236 | From any state: a sweep changes no key's answers in any continuation if and only if each bucket it takes is full and nobody waits on it. |
| EvictionLimits.AllUnnoticedIff | ratelimit.go:190-241 | In every run, all its sweeps go unnoticed whatever follows if and only if they meet the condition of `EvictionTransparent`. |
| EvictionLimits.ArrivalTimeIsNotLastUse | ratelimit.go:211-239 | For every rate and every idleTTL there is a run of the real steps, its sweep taking a bucket nobody waits on, whose answers are not those of the never-evicted limiter. |
| Eviction.StepsAreMethods | ratelimit.go:207-241 | Each step does to the table what the contract of `BucketFor`, `Limiter.Attempt` or `EvictIdle` says. |
| Retry.Backoff | retry.go:100-138 | Zero without a base; otherwise half of the grown delay plus the roll of the dice below it, not below 50 ms, not above the ceiling; no sum overflows. |
| Retry.GrownIsExactIff | retry.go:108-121 | The guarded shift is min(base * 2^n, ceiling) if and only if it is not the case n = 62, base = 1, ceiling > 2^62. |
| Retry.GrownWithoutCeiling | retry.go:108-121 | Without a ceiling it is the product while that fits and n < 62, then the base. |
| Retry.Run | retry.go:40-82 | Between one attempt and the budget, which is maxAttempts or one; all but the last failed transiently; stops at the first success or permanent error; which outcome means what; each sleep is the hint or the backoff, cut at maxDelay. |
| Retry.SleptMeans | retry.go:61-73 | Such a sleep is the server's hint cut to maxDelay, zero without a base, else between half of min(base * 2^i, maxDelay) and all of it, with 50 ms as the least. |
| Retry.OncePerAttempt | client.go:354-363 | As long as attempts fail transiently, each has asked the limiter once and sent one request. |
| Retry.ShouldRetryIff | client.go:377-386 | Repeated may be GET, HEAD, PUT, DELETE and OPTIONS, and with a key or the option POST and PATCH; nothing else. |
| Retry.EndsBy | client.go:354-365 | An attempt ends by the limiter's refusal if there is one, else by the response: transient exactly for an unexpected 429 or 500 to 599. |
| Retry.TotalSleep | retry.go:71-79 | The sleeps add up to at most (budget - 1) * maxDelay. |
| Retry.RetryAfter | retry.go:180-207 | The hint is absent exactly when no header reads as a non-negative number or a date; otherwise it is cut to 24 hours before scaling, and a past date is zero. |
| Retry.Do | client.go:354-386 | As many limiter calls as attempts, and a request for each that is let through; only 429 and 500 to 599 are repeated; POST and PATCH without key and option, and any verb outside the seven, are attempted once, without a sleep; for the others a transient last failure given up on means that maxAttempts were made; each sleep keeps to the hint of its response; the outcome and error are the last attempt's. |
| Refresh.StepHolds | acquiring/handler.go:126-171 | Each step of any goroutine keeps the protocol's invariant. |
| Refresh.RunHolds | acquiring/handler.go:146-171 | So every run of interleaved steps does. |
| Refresh.RefreshIsSafe | webhook/handler.go:148-195 | In every interleaving: at most one provider call in flight, each at least 30 s after the last recorded refresh, records 30 s apart, the cached key one the provider returned, every joiner with a leader. |
| Refresh.ReturnsTell | acquiring/handler.go:146-171 | In every interleaving a goroutine that returns, leader, joiner or throttled, returns whether the latest provider call gave a key. |
| Refresh.FinishReturnsAll | acquiring/handler.go:154-170 | When an execution ends, its leader and all who joined it return its result. |
| Refresh.StampsAreSparse | acquiring/handler.go:146-169 | Recorded refreshes i and j are at least (j - i) * 30 s apart. |
| Refresh.HeldApartUnlessFailing | acquiring/handler.go:141-171 | In every interleaving, of any two provider calls: a refresh is recorded between their starts if and only if not all from the one to the other failed, and then they are 30 s apart. |
| Refresh.CallsAreBounded | acquiring/handler.go:22-26 | The calls of any stretch number at most one, plus its length over 30 s, plus the failures in it. |
| Refresh.FailuresAreNotThrottled | acquiring/handler.go:156-163 | For every n there is a run with n failing provider calls at one instant. |
| Refresh.AloneIsCoalesced | webhook/handler.go:170-195 | With no one else about, a goroutine's steps come to what the contract of `KeyCache.FetchCoalesced` says. |
| Dedup.MemoryDeduper.constructor | acquiring/dedup.go:53-62 | Empty; a capacity of zero or less is 1024. |
| Dedup.MemoryDeduper.Has | acquiring/dedup.go:75-86 | Whether the key is held; a hit moves it to the front and changes nothing else; list and index stay in step. |
| Dedup.MemoryDeduper.Add | acquiring/dedup.go:90-108 | The key goes to the front, past the capacity the last one goes; the list has no duplicates and the index is exactly its elements. |
| Dedup.MemoryDeduper.Len | acquiring/dedup.go:111-115 | The number of keys, at most the capacity. |
| Dedup.LeastRecentlyUsed | acquiring/dedup.go:75-108 | After any run the keys are the first `capacity` of all keys ever used, by most recent use. |
| Dedup.RecencyPlace | acquiring/dedup.go:88-106 | In that order a key stands right after exactly the keys used since its last use. |
| Dedup.HasAgrees | webhook/dedup.go:56-89 | After any run from empty, a key is held if and only if it was used and fewer than `capacity` others were used since. |
| Delivery.KeysAreRecent | acquiring/handler.go:230-248 | After any run of requests the deduper holds the `capacity` most recently touched keys. |
| Delivery.AnswerTells | acquiring/handler.go:230-248 | In any run an accepted delivery is answered 500 if OnEvent ran and failed and 200 otherwise, a known key included. |
| Delivery.AckMeansProcessed | acquiring/handler.go:230-248 | A delivery answered 200 was processed by OnEvent, now or earlier. |
| Delivery.RunsIff | acquiring/handler.go:230-238 | OnEvent runs if and only if the key is empty, was never touched, or `capacity` others were touched since. |
| Delivery.FailureNeverSuppresses | acquiring/handler.go:238-244 | While OnEvent has not succeeded for a key, every delivery of it runs OnEvent. |
| Delivery.AtMostOnceWithinCapacity | webhook/handler.go:267-292 | After a success OnEvent does not run again for that key before `capacity` other keys were touched. |
| Handlers.KeyCache.Fetch | acquiring/handler.go:126-139 | One provider call; the key is replaced if it succeeds and kept if not. |
| Handlers.KeyCache.FetchCoalesced | acquiring/handler.go:146-171 | Undisturbed: within 30 s of the last record no call and no error; else one call, whose key is kept and whose time recorded only on success, and whose failure is returned. |
| Handlers.Deliver | acquiring/handler.go:230-248 | With a deduper or without one: OnEvent runs unless the key is held, the answer is 500 if it ran and failed and 200 otherwise, and the keys change by the delivery rule. |
| Handlers.SameKeyIff | acquiring/dedup.go:41-49 | For invoice ids without the separator, two states share a key if and only if they are the same state. |
| Handlers.AcquiringHandler.Verify | acquiring/handler.go:255-273 | Passes exactly when the deciding key vouches for the body: the given one, or after a bad signature the cached one once refreshed or throttled; the whole key cache left behind. |
| Handlers.AcquiringHandler.ServeHTTP | acquiring/handler.go:180-249 | The answer to every request in terms of the deciding key, parse and delivery rule. A signed body with a key at hand passes if and only if the key cached afterwards verifies it and, with a maximal age, it is recent. The deduper, and the key, its record of refreshes and calls left behind, untouched by every other request. |
| Handlers.BankHandler.ServeHTTP | webhook/handler.go:206-293 | The same, 401 exactly if the key cached afterwards does not verify the body; the refetch is triggered by another key id and only by that. |
| Money.Add | money/money.go:182-196 | The exact sum, or Overflow if and only if it leaves int64, or a currency error if and only if the codes differ. |
| Money.Sub | money/money.go:201-212 | The same for the difference. |
| Money.Mul | money/money.go:225-240 | The exact product, or Overflow if and only if it leaves int64. |
| Money.DividesBackOnlyIfExact | money/money.go:230-238 | A wrapped product never divides back, MinInt64 * -1 excepted. |
| ParseMajor.Parse | money/money.go:86-148 | For every number as it is written, of sign, whole and frac: Overflow if and only if the whole part trips the digit test, else whole.frac in minor units with the sign, modulo 2^64; the exact amount if and only if that fits int64 and is not -2^63 without decimals. Every other string is an error, and which. |
| ParseMajor.PartsOfWritten | money/money.go:90-102 | A string put together of a sign, a whole part, a dot and a fraction is cut into those, and negative for a minus only. |
| ParseMajor.WrittenAmount | money/money.go:86-148 | Every number as it is written has the amount its sign, digits and place of the dot give it. |
| ParseMajor.WellFormedIffWritten | money/money.go:99-116 | The strings read as amounts are exactly those written as an optional sign, digits, and an optional dot with at most `decimals` digits. |
| ParseMajor.ParseWhole | money/money.go:112-123 | Overflow if and only if the wrapped value goes down at some digit before the first character that is none; else an error exactly for such a character; else the whole part modulo 2^64. |
| ParseMajor.FittingNeverDrops | money/money.go:118-121 | The test never fires on a value that fits. |
| ParseMajor.NextBlockDrops | money/money.go:118-121 | It fires on every value from 2^63 up to 2^64. |
| ParseMajor.LastDigitDropsIff | money/money.go:118-121 | After a value that fits, one more digit is noticed if and only if the wrapped value is smaller. |
| ParseMajor.UnnoticedWholePart | money/money.go:118-121 | The test misses 45 * 10^18, which comes out as 8106511852580896768. |
| ParseMajor.ParseFrac | money/money.go:128-143 | The fraction padded to the decimals, modulo 2^64; an error exactly for a non-digit. |
| ParseMajor.UncheckedShift | money/money.go:124-127 | Every whole number that fits while its minor units do not is well formed and comes out wrapped. |
| InstallmentMoney.Money.UnmarshalJSON | installment/money.go:117-137 | Stores what the parser reads, and leaves the amount alone on an error. |
| InstallmentMoney.ReadAs | installment/money.go:117-131 | Inside any white space: nothing, null and two quotes are zero, text in quotes is what is parsed, and any other text itself. |
| InstallmentMoney.WrittenParsed | installment/money.go:141-207 | For every sign, digits, dot and digits: an error if the whole part leaves int64, else the rounded amount modulo 2^64. |
| InstallmentMoney.KopecksRound | installment/money.go:173-198 | The two-digit rule with a look at the third is exact rounding, half away from zero, for any number of digits. |
| InstallmentMoney.ParseIsExact | installment/money.go:139-207 | The parse of a written number is its exact value rounded to kopecks if and only if that fits int64. |
| InstallmentMoney.AcceptsIff | installment/money.go:141-202 | The strings the parser accepts, exactly: what may stand before and after the dot. |
| InstallmentMoney.AcceptedValue | installment/money.go:141-207 | What every accepted string, decimal or not, is read as: the hryvnias, two places of kopecks of which the first may be a sign, one more if the third is `5` or above, modulo 2^64. |
| InstallmentMoney.AcceptedIsDecimalIff | installment/money.go:116 | An accepted string is a decimal if and only if it has no second sign, before the hryvnias or before the kopecks, and only digits from the third place after the dot on. |
| InstallmentMoney.DecimalIffWritten | installment/money.go:139-147 | The decimals are the strings written as an optional sign, digits, and an optional dot with digits (a dot alone is zero). |
| InstallmentMoney.DecimalsAreExact | installment/money.go:139-207 | Every string that is a decimal is read as its exact value rounded to kopecks if and only if that fits int64. |
| InstallmentMoney.AcceptedAnyway | installment/money.go:174-198 | Two strings that are no decimals and are read as 113 and 95 kopecks. |
| InstallmentMoney.PrintedParses | installment/money.go:87-99 | Every amount but the smallest int64 is read back from its printed form. |
| InstallmentMoney.SmallestPrinted | installment/money.go:88-97 | The smallest int64 prints with a second sign in each part. |
| InstallmentMoney.SmallestDoesNotParse | installment/money.go:199-201 | And that is refused by the parser. |
| InstallmentMoney.RoundTripIff | installment/money.go:107-137 | Marshalled, bare or quoted, and unmarshalled, an amount is itself if and only if it is not the smallest int64. |
| Reconcile.ReconcileStatement | acquiring/reconcile.go:181-219 | The loop's lists are the row-by-row differences; OnlyLocal is ascending and holds exactly the local ids not in the statement. |
| Reconcile.EveryRowAccountedFor | acquiring/reconcile.go:185-208 | Each row is unknown locally or compared, with exactly the mismatches its record shows. |
| Reconcile.MismatchesTell | acquiring/reconcile.go:192-207 | Reported are exactly the rows' differences: a local amount against another in the statement, a non-empty local status against another, each on its own side. |
| Reconcile.InStatementOrder | acquiring/reconcile.go:185-208 | The lists of two parts of a statement, one after the other, are those of the whole: the statement's order, with repetitions. |
| Reconcile.OfOneRow | acquiring/reconcile.go:187-207 | The lists of a single row, its amount before its status. |
| Reconcile.AscendingUnique | acquiring/reconcile.go:210-217 | The sorted list does not depend on the order in which the map is visited. |
| Reconcile.LessIsLexicographic | acquiring/reconcile.go:217 | The order sorted by: a proper prefix first, else the smaller character where the two first differ. |
| Reconcile.CleanIffAgree | acquiring/reconcile.go:159-162 | Clean holds if and only if the id sets coincide and every row agrees in amount and, where set locally, status. |
| SpecScanner.SpecSlice | scripts/check-spec-drift.py:45-70 | The loop finds the first opening brace and slices to where its scan ends, or to the end of the page. |
| SpecScanner.OverJson | scripts/check-spec-drift.py:52-69 | Any JSON value inside an open brace leaves the scanner as it was, whatever its strings contain. |
| SpecScanner.ScanStopsAtClose | scripts/check-spec-drift.py:50-69 | From the opening brace of a JSON object followed by anything, the scan ends at its closing brace. |
| SpecScanner.SliceIsObject | scripts/check-spec-drift.py:50-70 | The slice is that object's text. |

## Left out

- HTTP transport, request building, JSON decoding and the endpoint methods: an exchange is a given answer.
- Signatures, base64 and PEM: given functions. The singleflight group is taken by its contract.
- Clock readings, timers, jitter and cancellation are arguments. Instants are unbounded, so the guards against
  `time.Time` overflow are kept but never taken, and int64 durations are bounded only in `Retry`.
- RateLimit.Limiter.Attempt: float64 rounding is not modelled, token counts are reals.
- RateLimit.Limiter.Wait: models a caller alone, with a finite list of wake-ups; runs of several callers are the
  sequences of attempts of `GrantBound` and the steps of `Eviction`, joined to the methods by `StepsAreMethods`.
- KeyedLimit.KeyedLimiter.WaitKey: models a caller alone, for the same reason.
- Mutexes: each method of a class is one atomic action.
- Handlers.KeyCache.FetchCoalesced: models a caller alone; interleavings are in `Refresh`, and `AloneIsCoalesced`
  joins the two.
- Handlers.AcquiringHandler.ServeHTTP: models requests one at a time; concurrent deliveries of one key may both run
  OnEvent, as Has and Add are separate steps. The two packages' equal refresh code is one class, and keys are compared
  by value where the source compares pointers, which changes no answer. The reports to OnError are not recorded.
- Handlers.BankHandler.ServeHTTP: models requests one at a time; calls of OnUnknownType and OnError are not recorded.
- Dedup.MemoryDeduper.MoveToFront: container/list is a sequence of element references, without its inner pointers.
- Retry.Do: a request body that cannot be reset is not distinguished from a failed exchange.
- Retry.RetryAfter: reading a number and an HTTP date are given functions, and headers come trimmed.
- ParseMajor.Parse: the table of decimals by currency is not modelled, the number of decimals is an argument.
- Strings are sequences of characters, not of UTF-8 bytes; the parsers look only at digits, signs, dots and whether a
  character is at least `5`, and tell the same of a character above ASCII and of its first byte. `sort.Strings` is an insertion that keeps the list ascending by characters.
- SpecScanner.SpecSlice: the pattern match before it and `json.loads` after it are not modelled.
- Reconcile.ReconcileStatement: amounts are minor units, as the source compares only those.
- Float money code, simple offset pagers, `PollInvoice`, baskets, code tables, logging and tracing: no result here needs
  them.
