# Transaction signer: model and proofs

This project models the parts of the transaction signer whose guarantees span many calls, and
proves those guarantees. Each protocol appears twice: as functions on values, about which laws are
proved over every run, and, where the signer updates fields, maps or arrays, as classes and methods
whose contracts tie each update to those functions. `dafny verify dfyconfig.toml` checks everything.

| files | what they model |
|---|---|
| `Idempotency.dfy`, `ClaimLaws.dfy`, `HandlerRuns` and `Handlers` in `Handlers.dfy` | claim, execute, save or release by any number of interleaving handlers, over the memory and the Postgres store; one uninterrupted handler as an imperative method |
| `ChainNonces.dfy` | the memory store's nonce counter, the Postgres nonce table, and the refinement between them |
| `RpcEndpoint.dfy`, `RpcEndpointLaws.dfy`, `RpcEndpointPrices.dfy`, `RpcFleet.dfy`, `RpcFleetClass.dfy` | the RPC fleet: decay, sliding reservations, cooldowns, scores and what they price, exchange sort, rotation by aliased append |
| `RateLimit.dfy` | token bucket and sliding window, each against a declarative specification |
| `Amounts.dfy`, `Numerals.dfy`, `Calldata.dfy`, `Policy.dfy`, `PolicyLaws.dfy`, `Arithmetic.dfy` | decimal texts, with exponents and without, to units, units to ERC-20 calldata, the transfer and contract-call policies |
| `Replay.dfy`, `NonceManager.dfy`, `Requests.dfy`, `RequestLaws.dfy` | timestamp window and nonces, `ValidateNonce` as interleaved steps, signed messages, the order of request checks |
| `Floats.dfy`, `Treasury.dfy`, `TreasuryLaws.dfy`, `TreasurySent.dfy`, `Signer.dfy` | recorded outflow against the treasury limits, what was really sent, the failover loop, the receipt monitor |
| `Custody.dfy`, `CustodyThreats.dfy`, `CustodyGuard.dfy` | the custody lock over scans, unlocks, restarts and changes of configuration; the block scan |
| `MemoryStore.dfy`, `PostgresStore.dfy` | the two stores as objects with their maps and tables |
| `Wrappers.dfy`, `Text.dfy` | `Option`, `Result`, `strings.TrimSpace` |

Conventions. Times are integers in nanoseconds (days or reals where a component only compares them);
clock readings, RPC answers and storage faults are parameters or steps. Scores and limiter tokens are
exact reals. `uint32`, `uint64`, `int64` and `BIGINT` ranges and wrap-around are written out. Amounts
read from texts and treasury sums are float64 values without rounding: a real, an infinity, or NaN,
which compares with nothing. `strconv.ParseFloat`, HMAC and SHA-256 are function parameters; what a
lemma needs of them is in its `requires`. Histories marked `ghost` record runs and play no part in any
result.

Where a promise does not hold of the code, the code is kept and the exact condition is proved:

- At-most-once execution holds with the memory store. With Postgres a key is executed twice if and
  only if an execution starts although its result is already stored (`PostgresAtMostOnceIff`), and a
  run that does so exists (`PostgresCanRepeat`), because `store.go:198-202` looks the result up and
  inserts the lock in two statements.
- A (timestamp, nonce) pair is accepted at most once if and only if the nonce time to live is at
  least the window of one timestamp (`2 * maxSkew + 1` seconds, or the whole clock where that is
  shorter) plus the delay between the two checks, less a nanosecond. The defaults of 300 s and 300 s
  (`config.go:153-157`) are on the wrong side.
- The skew check also accepts the one timestamp 2^63 seconds before now, whose distance wraps in
  `int64` (`internal/security/hmac.go:72-76`, `TimestampAcceptedIff`). The at-most-once result covers it.
- An endpoint holds at most seven reservations in its window as long as no send drops the cooldown of
  an enabled endpoint; when one does, no bound holds.
- A Postgres nonce reservation is refused exactly when the nonce it needs exceeds `BIGINT` or belongs
  to a failed row, which keeps its primary key; so a granted nonce that is marked failed blocks its
  wallet and network while the chain reports the same pending nonce (`FailedNonceBlocks`). The counter's closed form holds exactly as long as
  its value fits `uint64`.
- Recorded outflow keeps the treasury limits throughout a run if and only if no broadcast amount is
  recorded as a text that reads as NaN (`LimitsHoldIff`). The policies and the treasury checks let
  NaN through, because every comparison with it is false; `parseUnits` refuses it in a transfer, but a
  contract call records it, and from then on every amount of its account passes (`NaNCallLiftsLimits`).
- What a transfer sends is at most what is recorded of it if and only if it sends nothing, or its
  amount has no space at either end and no negative exponent (`SentAtMostRecordedIff`): a padded text
  is recorded but not read by the sum, and `parseUnits` cuts an exponent off with the fraction it does
  not need. When all of an account's amounts are of that kind and recorded, the limits hold of what
  was sent; with padded amounts, unrecorded broadcasts (`main.go:902-913` drops the store's error) or
  one negative exponent every bound is passed by some run.
- An accepted amount sends at most limit * 10^decimals units, whatever limit lets it through, if and
  only if it has no negative exponent or sends nothing (`AcceptedUnitsWithinIff`).
- `parseUnits` adds the fraction to a negative whole part: with a minus sign and a fraction the value
  law holds if and only if the fraction is zero (`SignedFloorIff`). The policies refuse such amounts.
- A raw signed message has a single reading if and only if neither its nonce nor its body holds a dot.
- Any expired entry of the in-memory nonce store still refuses its nonce until it is deleted.

## Model

| member | source | states |
|---|---|---|
| Idempotency.AtMostOnce | main.go:266-298 | memory store: over any interleaving of any number of handlers of all three endpoints, with failing saves and releases and handlers that vanish, no non-empty key is successfully executed twice |
| Idempotency.AnswersAgree | main.go:272-298 | memory store: all successful answers ever given for a key are the same response, that of its one execution |
| Idempotency.MutualExclusion | store.go:194-244 | either store: at most one handler of a key is between a granted claim and its save or release, and it owns the key's lock |
| Idempotency.ResultsWriteOnce | store.go:213-236 | either store: a stored response stays stored and unchanged through every continuation of the run |
| Idempotency.RepeatsAreStale | store.go:194-211 | an execution repeats an earlier one of its key if and only if it started with the key's result already stored; impossible with the memory store |
| Idempotency.PostgresAtMostOnceIff | store.go:198-202 | a Postgres run executes no key twice if and only if no execution starts with its key's result already stored |
| Idempotency.PostgresCanRepeat | store.go:198-202 | for every key and two different responses, a Postgres run that answers both, keeping the first as the stored one |
| Idempotency.RunKeepsInvariant | store.go:463-498 | the inductive invariant behind these: lock ownership, genuine results and answers, spent keys, repeats exactly the stale executions |
| Idempotency.NewHolder | store.go:463-477 | a step makes at most the handler it names a holder, and only of a key whose lock was free |
| ClaimLaws.ClaimGrantedIff | store.go:463-477 | memory store, every run: after its claim an arrived handler executes exactly when its key is empty or has neither result nor lock, is told to wait exactly when the key is locked without a result, and is answered exactly with the stored response |
| ClaimLaws.LookUpDecides | store.go:194-200 | Postgres, first statement: an empty key executes, a stored result answers, any other key goes on to its lock |
| ClaimLaws.LockDecides | store.go:201-211 | Postgres, second statement: executes exactly when the key was not locked, waits exactly when it was |
| ClaimLaws.LocksAreHeld | store.go:463-498 | either store: while every save and release arrives and no handler vanishes, the locked keys are exactly those some handler holds |
| ClaimLaws.WaitsIffUnderWay | main.go:276-279 | then a request is told to wait exactly when another one of its key is under way |
| ClaimLaws.RetryIsGranted | store.go:490-498 | after a failed execution has released its key, the next request of the key executes |
| ClaimLaws.AnswersAreStored | main.go:293-298 | a key that was answered has its result stored; with the memory store that very response |
| ClaimLaws.KeyInUse | main.go:341-343 | only a settlement whose key is blank goes by its operation id, without the spaces at its ends |
| ClaimLaws.SettlesOnce | main.go:341-383 | memory store: of all settlements of one operation that send no key at most one is executed |
| HandlerRuns.OneHandler | main.go:266-298 | the steps of one uninterrupted handler: its outcome, the saved result, and locks as they were before |
| Handlers.Handle | main.go:219-298 | the handler as a method: custody lock, nonce, body, claim, execution, save or release; what it leaves is again a run of the idempotency protocol and of the treasury, a key with a stored result is answered from it and sends nothing, a locked one waits, a fresh one is answered with the response of its execution, which is stored, exactly when that succeeds; no lock is left behind |
| Handlers.ClaimAndAnswer | main.go:266-298 | the same from the claim on |
| Handlers.Finish | main.go:281-298 | after a granted claim: the result is saved exactly when the execution succeeds, which is spelled out, and the lock is gone |
| NonceCounter.ReservationIsPeak | store.go:532-542 | a reservation returns the maximum of all chain reports of its wallet and network, each advanced by the reservations since, if and only if that maximum fits uint64 |
| NonceCounter.NoncesIncrease | store.go:532-542 | while a wallet and network stays below the last uint64 its nonces strictly increase, whatever the chain reports and whoever interleaves |
| NonceCounter.CounterKeyInjective | store.go:535 | wallets without a bar, such as hexadecimal addresses, keep their counters apart |
| NonceCounter.NextIncreases | store.go:536-539 | a reservation exceeds the counter if and only if the counter is not the last uint64, and then is at least what the chain reports |
| NonceTable.GrantsDistinct | store.go:291-334 | over any run of reservations, marks and faults no nonce of a wallet and network is granted twice |
| NonceTable.GrantAboveLive | store.go:300-309 | a granted nonce is at least the chain's and above every reserved or submitted one |
| NonceTable.RefusedIffFailedRow | store.go:300-316 | a reservation is refused exactly when the nonce it needs is beyond BIGINT or is that of a failed row |
| NonceTable.NextFreeIff | store.go:300-309 | the nonce a reservation needs: above every reserved or submitted row and at least what the chain reports, which it is unless it follows such a row |
| NonceTable.FailedNonceBlocks | store.go:300-334 | a nonce granted and then marked failed is needed again and refused |
| NonceTable.SubmittedNonceFollowed | store.go:300-326 | marked submitted it is followed by the next one |
| NonceTable.MarkChangesOne | store.go:320-334 | marking changes the row of that nonce and no other |
| NonceTable.TableRefinesCounter | store.go:291-318 | while nothing is marked failed, the table never refuses and grants exactly the nonces of the memory counter |
| NonceTable.StaysInStep | store.go:291-326 | the relation behind it: every counter is the greatest live nonce of its rows |
| NonceTable.MaxOf | store.go:301-304 | the max query: a member of the set that no member exceeds |
| RpcFleetRuns.NeverMoreThanSeven | rpc_fleet.go:57-62 | in every sequential run in which no send drops an enabled endpoint's cooldown no endpoint holds more than 7 reservations or 49 units in its window |
| RpcFleetRuns.SevenIsReached | rpc_fleet.go:154-194 | a run without the fallback in which an endpoint holds seven |
| RpcFleetRuns.FallbackHasNoBound | rpc_fleet.go:118-130 | with the fallback a run reaches any number of reservations at one instant |
| RpcFleetRuns.StepKeepsInvariant | rpc_fleet.go:106-259 | every send, success and failure report keeps the spacing of reservations and cooldowns that the bound rests on |
| BurstBound.ReserveKeepsBurst | rpc_fleet.go:185-194 | reserving an endpoint that is not cooling keeps at most seven, spaced by the 900 ms cooldown |
| BurstBound.SuccessKeepsBurst | rpc_fleet.go:196-223 | a success gives a cooldown up only once it has run out, so the spacing stays |
| BurstBound.FailureKeepsBurst | rpc_fleet.go:225-259 | a failure only lengthens a cooldown, so the spacing stays |
| ScorePurity.ScoreIsObservationallyPure | rpc_fleet.go:154-183 | score calls inserted anywhere in a run change no other answer and no final counter, cooldown or reservation |
| ScorePurity.ExtraScoresAreInvisible | rpc_fleet.go:154-183 | the same from any two states that differ only by decay due and reservations out of the window |
| ScorePurity.SettledTwice | rpc_fleet.go:306-329 | pruning and decaying at t1 and again at t2 is doing so once at t2 |
| ScorePurity.DecayStepsExact | rpc_fleet.go:316-329 | within the range of time.Duration the uint32 step count is the exact quotient |
| EndpointPrices.ScoreOrders | rpc_fleet.go:161-182 | of two endpoints the one that is nowhere better and slower, more loaded, failed or rate limited more often scores strictly worse |
| EndpointPrices.BurstPenaltyGrows | rpc_fleet.go:162-177 | more load always costs more |
| EndpointPrices.BurstPenaltyRange | rpc_fleet.go:162-177 | nothing without load, less than 2200 under 18 units, at least 25000 from there |
| EndpointPrices.RecencyFades | rpc_fleet.go:168-173 | recent use costs 432 at once, less with time, nothing after 180 ms |
| EndpointPrices.ScorePrices | rpc_fleet.go:164-182 | 180 a failure, 900 a rate limit, one a millisecond, 120 for a new endpoint; load and recency are added on top |
| EndpointPrices.PrunedIsExact | rpc_fleet.go:306-314 | pruning keeps every reservation of the last 1.2 s as often as it occurs, and no other |
| EndpointPrices.LoadOfSends | rpc_fleet.go:331-339 | the load of sends is seven times their number in the window |
| EndpointPrices.DecayTakesOff | rpc_fleet.go:316-329 | every full 20 s take two off failures and timeouts and four off rate limits, down to zero; the rest of the time is kept |
| EndpointPrices.DecayBackwards | rpc_fleet.go:316-329 | under a clock a period or more behind the step count wraps: the counters are cleared and the next decay is centuries away |
| EndpointPrices.SuccessEases | rpc_fleet.go:206-222 | one off each counter, 28% of the way to the new latency, and only a cooldown that has run out is given up |
| EndpointPrices.FailureRaises | rpc_fleet.go:235-258 | the counters of the kind, disabling, and a cooldown never cut short, of at least half a second and at most 45 s |
| EndpointPrices.FixedCooldowns | rpc_fleet.go:236-254 | half a second, 0.7 s, and 45 s for an exhausted provider |
| EndpointPrices.TimeoutCooldowns | rpc_fleet.go:246-254 | 0.8 s doubling with the timeouts to 12.8 s |
| EndpointPrices.RateLimitCooldowns | rpc_fleet.go:238-240 | 4 s doubling with the rate limits to 32 s |
| EndpointPrices.ReserveMarks | rpc_fleet.go:185-194 | one more reservation of seven units, just selected, and a cooldown of 0.9 s exactly from 36 units on |
| EndpointPrices.RecordsSettle | rpc_fleet.go:203-235 | what a success eases and a failure raises is what time has left of the counters |
| SendPrices.WorseComesLater | rpc_fleet.go:106-152 | of two usable endpoints the strictly worse is never offered without the better, but for the single offer of an odd turn, and comes second on even turns |
| RpcFleetSpec.SendPicksEligible | rpc_fleet.go:106-152 | a send offers distinct usable endpoints, exactly two when two are usable, fewer only for a smaller positive limit |
| RpcFleetSpec.SendPicksBest | rpc_fleet.go:131-146 | with two or more usable endpoints the offer is the two lowest scores, in the order of the rotation's parity, cut from behind |
| RpcFleetSpec.SendFindsEnabled | rpc_fleet.go:106-152 | the offer is empty if and only if every endpoint is disabled |
| RpcFleetUrls.UniqueUrlsKeepAll | rpc_fleet.go:64-86 | exactly the non-empty trimmed URLs are kept, none twice |
| RpcFleetUrls.UniqueUrlsGrow | rpc_fleet.go:64-86 | later URLs never move or drop an earlier one |
| RpcFleetClass.RpcFleet.SendCandidates | rpc_fleet.go:106-152 | the method does exactly one send step: scores, ranking, rotation, reservations; handles carry their endpoints' URLs |
| RpcFleetClass.RpcFleet.constructor | rpc_fleet.go:64-86 | untouched endpoints for the unique URLs in order, numbered by position, or the default one |
| RpcFleetClass.RpcFleet.RecordSuccess | rpc_fleet.go:196-223 | changes the named endpoint as the specification says and no other; unknown ids change nothing |
| RpcFleetClass.RpcFleet.RecordFailure | rpc_fleet.go:225-259 | the same for failures |
| RpcFleetClass.RpcEndpoint.Score | rpc_fleet.go:154-183 | settles the endpoint, refuses exactly the disabled and those whose cooldown is not over, and gives the score that ScoreOrders and ScorePrices describe |
| RpcFleetClass.RpcEndpoint.Reserve | rpc_fleet.go:185-194 | the endpoint's whole state after a reservation |
| RpcFleetClass.RpcEndpoint.Prune | rpc_fleet.go:306-314 | keeps exactly the reservations in the window, in order |
| RpcFleetClass.RpcEndpoint.Decay | rpc_fleet.go:316-329 | counters and phase after saturating decay |
| RpcFleetClass.RpcEndpoint.RecordSuccess | rpc_fleet.go:196-223 | the endpoint's whole state after a success |
| RpcFleetClass.RpcEndpoint.RecordFailure | rpc_fleet.go:225-259 | the endpoint's whole state after a failure of each kind |
| RpcFleetClass.RpcEndpoint.Load | rpc_fleet.go:331-339 | the units in the window |
| RpcFleetClass.ExchangeSort | rpc_fleet.go:131-137 | in place: a permutation, lowest score first |
| RpcFleetClass.RotateByAppend | rpc_fleet.go:138-146 | append over its own backing array, in place or reallocated: the view is the back part followed by the old front part |
| TokenBucketSpec.LevelDecides | internal/security/ratelimit.go:50-74 | the token level reaches one exactly when admitting conforms, counted from every earlier request and from itself |
| TokenBucketSpec.LevelRecords | internal/security/ratelimit.go:50-74 | deducting, or not, keeps the level the least room any request of the history leaves |
| TokenBucketSpec.AtMostBurstPlusDrip | internal/security/ratelimit.go:46-74 | at most limit plus rate times length admissions between any two requests |
| TokenBucketSpec.SpacedNeverRefused | internal/security/ratelimit.go:46-74 | requests at least 1/rate apart are never refused |
| TokenBucketSpec.BurstAdmitsLimit | internal/security/ratelimit.go:46-74 | of requests that all come at one moment the first `limit` are admitted and all others refused |
| TokenBucketSpec.AdmittedCounts | internal/security/ratelimit.go:66-72 | the count these laws use is the number of admitted requests |
| TokenBucketSpec.FaithfulExtends | internal/security/ratelimit.go:46-48 | a history decided as specified stays one |
| TokenBucketClass.TokenBucket.AllowWithLimit | internal/security/ratelimit.go:50-74 | admits if and only if the key's whole history leaves room for one more; other keys untouched |
| TokenBucketClass.TokenBucket.Allow | internal/security/ratelimit.go:46-48 | the same under the limiter's burst; the history stays a faithful one |
| TokenBucketClass.TokenBucket.Reset | internal/security/ratelimit.go:76-80 | forgets exactly the key |
| SlidingWindowSpec.AtMostLimitInAnyWindow | internal/security/ratelimit.go:111-141 | every interval (a, a + window], wherever it starts, holds at most limit admissions |
| SlidingWindowSpec.AfterTwice | internal/security/ratelimit.go:121-128 | pruning at two cutoffs is pruning at the later |
| SlidingWindowSpec.AfterIsExact | internal/security/ratelimit.go:121-128 | pruning keeps every entry above the cutoff as often as it occurs, and no other |
| SlidingWindowSpec.AfterIsEnd | internal/security/ratelimit.go:121-128 | of a log in time order it keeps the end, as it is |
| SlidingWindowSpec.WithinCounts | internal/security/ratelimit.go:111-141 | the entries of an interval are counted by position |
| SlidingWindowSpec.ThrottledExtends | internal/security/ratelimit.go:129-140 | admitting below the limit keeps the log throttled |
| SlidingWindowClass.SlidingWindow.AllowWithLimit | internal/security/ratelimit.go:111-141 | refuses a known key exactly when `limit` or more of its admissions lie in the window, and after every earlier cutoff; a new key is admitted; other keys untouched |
| SlidingWindowClass.SlidingWindow.Allow | internal/security/ratelimit.go:107-109 | refuses a known key exactly when `limit` or more of its admissions lie after now - window, so a key without one in the window is admitted under a limit of at least one; the kept list is the log restricted to the window |
| SlidingWindowClass.SlidingWindow.Filter | internal/security/ratelimit.go:121-128 | the filtering loop keeps exactly the later entries, as often as they occur and in order |
| SlidingWindowClass.SlidingWindow.Reset | internal/security/ratelimit.go:143-147 | forgets exactly the key |
| Amounts.ParseUnits | main.go:1137-1168 | the method, with its padding loop, agrees with the unit function on every text and every number of decimals, errors included |
| Amounts.UnitsAreFloor | main.go:1137-1168 | for every plain decimal and 0 to 30 decimals the units are the value times 10^d rounded down |
| Amounts.UnitsExact | main.go:1154-1167 | with enough decimals nothing is lost |
| Amounts.FewerDecimals | main.go:1154-1167 | parsing at d is parsing at d + 1 divided by ten |
| Amounts.SignedAddsFraction | main.go:1137-1168 | what a minus sign gives instead: the fraction is added to the negative whole part |
| Amounts.PlusSign | main.go:1145-1148 | a plus sign before a plain decimal changes nothing |
| Numerals.SignedFloorIff | main.go:1137-1168 | with a minus sign and a fraction the units are the value times 10^d rounded down if and only if the fraction is zero |
| Numerals.UnitsOfNumeral | main.go:1154-1167 | any numeral, with or without exponent and spaces: refused when the exponent is not cut off whole, else the significand times 10^d rounded down, whatever the exponent |
| Numerals.UnitsWithinNumberIff | main.go:1137-1168 | the units stay within the number times 10^d if and only if the exponent is not negative or there are none |
| Numerals.NaNHasNoUnits | main.go:1143-1146 | every spelling of NaN is refused |
| Numerals.TinyWorth | main.go:1154-1167 | a numeral worth 10^k tokens however small its number |
| Calldata.ERC20TransferData | main.go:1170-1178 | the buffer filled in place is the specified calldata |
| Calldata.ReadsBack | main.go:1170-1178 | the calldata decodes to selector, recipient and amount if and only if the amount is a uint256 |
| Calldata.CalldataBytes | main.go:1170-1178 | byte by byte: a9059cbb, twelve zeros, the recipient, and the amount with its most significant byte first |
| Calldata.EncodingInjective | main.go:1170-1178 | equal calldata means equal recipient and amount |
| Calldata.BigEndianValue | main.go:1175-1176 | the bytes of an amount read back as the amount |
| Policy.AcceptedAmount | policy.go:70-97 | an accepted amount reads as NaN, or as a positive number within a positive limit |
| Policy.NaNCallAccepted | policy.go:28-68 | an accepted contract call stays accepted when its amount is replaced by one that reads as NaN |
| PolicyLaws.TransferAcceptedIff | policy.go:70-105 | exactly which transfers pass: network, amount, recipient, and token, which is the USDT contract if none is named |
| PolicyLaws.ContractCallAcceptedIff | policy.go:28-68 | exactly which contract calls pass: network, target, aggregate3 selector, amount, token |
| PolicyLaws.HexAddressIff | policy.go:91-96 | an address is forty hexadecimal digits, with or without 0x |
| PolicyLaws.ToUpperIff | policy.go:87 | lists compare texts up to the case of ASCII letters |
| Policy.AcceptedUnitsWithinIff | policy.go:70-97 | an accepted numeral sends at most limit * 10^d units, under every limit that lets it through, if and only if it has no negative exponent or sends none |
| Policy.AcceptedTransferReadsBack | main.go:857-880 | what an accepted numeral sends reads back from the calldata as the recipient and the exact floor if and only if that is a uint256; a limit that is one guarantees it without a negative exponent |
| ReplayWindow.AcceptedAtMostOnce | store.go:440-454 | with a long enough time to live no run accepts a (timestamp, nonce) pair twice, given lazy purging and whole-second checks |
| ReplayWindow.AcceptedTwice | store.go:440-454 | with any shorter time to live some run does |
| ReplayWindow.DefaultsAreShort | config.go:153-157 | the default 300 s and 300 s are too short |
| ReplayWindow.TimestampAcceptedIff | internal/security/hmac.go:63-80 | exactly which timestamps the 64-bit skew check accepts, for every int64 limit |
| ReplayWindow.SameTimestampSpan | internal/security/hmac.go:63-80 | two checks that accept one timestamp are less than the window of the limit apart |
| ReplayWindow.WholeWindow | internal/security/hmac.go:63-80 | and some timestamp is accepted over the whole of it |
| ReplayWindow.NonceKept | store.go:440-454 | an accepted nonce stays stored, with its own expiry, until that has passed |
| ReplayWindow.NewNonceAccepted | store.go:440-454 | over every run an attempt with a nonce not tried before is accepted exactly when its timestamp is |
| ReplayWindow.AcceptedIffExpired | store.go:440-454 | a kept nonce is refused up to its expiry and accepted after it; other entries stay exactly until theirs |
| NonceValidation.ExactlyOneSucceeds | internal/security/nonce.go:41-61 | of any number of interleaved calls on an unseen nonce, with look-up, store, deletion and cleanup as separate steps within one time to live, exactly one succeeds once all have finished |
| NonceValidation.AtMostOneSucceeds | internal/security/nonce.go:87-117 | and at no moment have two succeeded |
| NonceValidation.StepKeepsOneOwner | internal/security/nonce.go:41-137 | every step keeps the entry owned by the one call that succeeded and the only ground to refuse another |
| NonceManagerClass.NonceManager.ValidateNonce | internal/security/nonce.go:41-61 | an uninterrupted call succeeds if and only if the nonce is non-empty and has no entry, expired or not, and is the three steps of the interleaved model |
| NonceManagerClass.NonceManager.Consume | internal/security/nonce.go:46-60 | look-up and store: exactly a nonce without an entry is stored, and an expired entry is handed to a deletion |
| NonceManagerClass.InMemoryNonceStore.Store | internal/security/nonce.go:87-98 | stores exactly the absent nonces |
| NonceManagerClass.InMemoryNonceStore.Exists | internal/security/nonce.go:100-117 | true exactly for unexpired entries; an expired one leaves a deletion to run |
| NonceManagerClass.InMemoryNonceStore.Delete | internal/security/nonce.go:119-124 | removes exactly the nonce |
| NonceManagerClass.InMemoryNonceStore.Cleanup | internal/security/nonce.go:126-137 | the loop removes exactly the expired entries |
| SignedMessages.HashedMessageReadsBack | internal/security/hmac.go:82-88 | a message ending in a hash determines timestamp, nonce and hash |
| SignedMessages.RawMessageReadsBack | internal/security/hmac.go:90-96 | a message ending in the raw body does so among nonces without a dot |
| SignedMessages.RawSoleReadingIff | internal/security/hmac.go:90-96 | among all nonces it does so if and only if nonce and body hold no dot |
| SignedMessages.RotationKeepsSignatures | internal/security/hmac.go:30-48 | what the active secret signed still passes after one rotation |
| RequestLaws.FreshSecretPassesIff | internal/security/hmac.go:35-96 | before any rotation a request passes exactly with all its parts, an accepted timestamp and the signature of the active secret |
| RequestLaws.RotatedSecretPassesIff | internal/security/hmac.go:30-61 | after one rotation exactly with that of the new secret or the one before |
| RequestLaws.TwoRotationsForget | internal/security/hmac.go:30-33 | two rotations forget a secret |
| RequestLaws.CredentialsAre | internal/security/request.go:84-93 | the current headers count if any of them is there, else the older ones |
| RequestLaws.UnsignedPasses | internal/security/request.go:75-110 | a request without a signature needs no more than a readable body |
| RequestLaws.SignedOkIff | internal/security/request.go:75-110 | a signed one signs the part of the body that is read, hashed under the current headers and raw under the older ones |
| RequestValidation.HMACValidator.Validate | internal/security/hmac.go:35-61 | passes exactly the complete requests with a timestamp in the window and a signature under the active or the former secret |
| RequestValidation.HMACValidator.ValidateTimestampInputs | internal/security/hmac.go:63-80 | exactly the complete requests whose timestamp parses and lies in the window |
| RequestValidation.HMACValidator.RotateSecret | internal/security/hmac.go:30-33 | the former active secret becomes the old one |
| RequestValidation.HMACValidator.SetOldSecret | internal/security/hmac.go:26-28 | replaces only the old secret |
| RequestValidation.RequestValidator.Authenticate | internal/security/request.go:71-109 | passes exactly the requests within the size limit whose body can be read and whose signature, if there is one, passes for the part of the body that is read |
| RequestValidation.RequestValidator.ConsumeNonce | internal/security/request.go:111-115 | uses up exactly an unused nonce |
| RequestValidation.Allow | internal/security/request.go:121-123 | either limiter admits exactly what its specification says |
| RequestValidation.RequestValidator.ValidateRequest | internal/security/request.go:61-132 | size, body, signature, nonce, rate in order: what one check refuses leaves no trace in the later ones, and a request refused only for its rate has used its nonce up |
| Treasury.LimitsHoldIff | main.go:1024-1072 | given a limit, recorded outflow of a token text and network keeps it at every moment of a run, per day with Postgres and in all with the memory store, also when the day turns between check and record, if and only if no broadcast amount is recorded as a text that reads as NaN |
| Treasury.NeverOverLimit | main.go:1024-1072 | one half, for one moment: without such an amount both limits hold |
| Treasury.NaNLiftsLimits | main.go:1037-1045 | while such a row counts, every amount that can be read is accepted |
| Treasury.ClosedRowsStay | main.go:1104-1135 | a confirmed, reverted or failed row never changes again, though requests come in between the steps of a receipt pass |
| Treasury.MarkNeverRaises | store.go:559-571 | a receipt never raises an outflow; confirming changes none, reverting takes exactly the row's part off |
| Treasury.RecordedAtMostChecked | main.go:1074-1089 | the recorded text reads as the checked amount, NaN included, or as nothing if it is padded |
| Treasury.DayAtMostQueried | store.go:387-409 | what counts on the day a row is created was counted by the check before it |
| Treasury.AcceptedFits | main.go:1036-1045 | a finite record of an accepted request fits the limits on top of the queried outflow |
| TreasuryLaws.AcceptedIff | main.go:1036-1045 | on top of a finite outflow a number passes exactly when it is positive and the sum exceeds no limit; an infinity only without a limit; NaN always |
| TreasuryLaws.WhichLimit | main.go:1037-1045 | which of the two limits a refusal names |
| TreasuryLaws.UnreadableRefused | main.go:1049-1089 | texts that cannot be read are refused, and blank ones but for contract calls, which record them as 0 |
| TreasuryLaws.OutflowGrows | store.go:387-409 | row by row what counts: submitted or confirmed rows of the account that can be read, of all days in memory and since today in Postgres |
| TreasuryLaws.SendDecides | main.go:889-913 | every run: an accepted, signable request leaves its row, submitted or failed, and counts as sent if it was broadcast; a refused one leaves nothing |
| TreasuryLaws.MarkDecides | main.go:1119-1131 | every run: a successful receipt confirms the row that is next and leaves every outflow, a failed one reverts it and takes exactly its part off; no other row changes |
| Treasury.RunKeepsInvariant | main.go:1024-1135 | every check-and-record, unrecorded broadcast, listing and marking keeps countable amounts, submitted listed rows, bounded accounts, and rows that match what was sent |
| Treasury.BornSubmitted | main.go:904-913 | every row that is not failed was submitted at some moment of the run |
| TreasurySent.SentAtMostRecordedIff | main.go:857-871 | row by row: a transfer of a numeral sends at most what is recorded of it if and only if it sends nothing, or its amount has no space at either end and no negative exponent |
| TreasurySent.SentWithinLimits | main.go:857-913 | when all an account sent is recorded, reads as a number and is covered by its record, the limits hold of what was sent |
| TreasurySent.PlainIsCovered | main.go:1137-1168 | unpadded plain decimals are covered by their records |
| TreasurySent.UnnoticedPassAnyBound | main.go:902-913 | with one padded amount, or with broadcasts the database does not record, runs of requests within the limits send more than any bound |
| TreasurySent.ExponentPassesAnyBound | main.go:1154-1160 | for every bound one recorded, unpadded transfer with a negative exponent, within the limits as read, sends more |
| TreasurySent.NaNCallLiftsLimits | main.go:1049-1072 | a contract call with an amount that reads as NaN, then any transfer of its account that can be read and signed is sent |
| Floats.AddReorder | store.go:592-600 | the order of a sum plays no part, NaN and infinities included |
| Totals.TotalSplit | store.go:592-600 | the sum over the rows does not depend on their order |
| Totals.TotalWithNaN | store.go:592-600 | one NaN makes the sum NaN |
| Totals.TotalOfTwo | store.go:592-600 | the sum of row-wise sums is the sum of the sums, NaN and infinities included |
| Attempts.AttemptsAreRun | main.go:807-824 | retries of a request checked once are a run of the treasury: the check holds for every attempt |
| Attempts.StillAccepted | main.go:889-903 | an attempt that does not send leaves the treasury check's answer as it was |
| Attempts.AttemptLeaves | main.go:836-915 | one endpoint: the counter that moves on, and the record, field by field, of an attempt that is signed: submitted if broadcast, failed if not |
| Attempts.RetriesTakeNewNonces | main.go:840-848 | a retry never reuses the nonce of an earlier attempt, whatever the endpoints report |
| Signer.ValidateTreasuryPolicy | main.go:1024-1072 | decides by the outflow of the table as it is, NaN included, and records the limit a request breaks |
| Signer.TryEndpoint | main.go:831-915 | one endpoint: nonce, units, record and response for each way it can end |
| Signer.SendWithFailover | main.go:807-828 | tries up to and including the first endpoint that sends; succeeds if and only if some endpoint does, with that attempt's hash |
| Signer.Execute | main.go:754-829 | policy, treasury check, derivation, network, key, simulation, attempts: refused and simulated requests leave table and counters alone, success leaves a new submitted row, and the table stays a treasury run; succeeds exactly when no check refuses and it is simulated or some endpoint broadcasts, with that hash |
| Signer.SendChecked | main.go:807-828 | the attempts after the checks: succeeds exactly when an endpoint broadcasts a signable request, with the first such hash |
| Signer.CheckSignerTransactions | main.go:1104-1135 | confirms exactly the listed transactions with a successful receipt, reverts exactly those with a failed one, and changes no other; a pass of successes leaves every outflow, a failed receipt takes exactly its row's part off; lists all open ones when fewer than 50; stays a treasury run |
| Signer.ReceiptDecides | main.go:1119-1131 | status, reason and confirmations a receipt leaves; records without one, or not listed, stay |
| Signer.PassOutflow | main.go:1119-1131 | a pass takes off an outflow exactly the parts of the rows whose receipts failed |
| MemoryStore.MemorySignerStore.AcceptNonce | store.go:440-454 | the purging loop and the answer are those of the replay window |
| MemoryStore.MemorySignerStore.ClaimResult | store.go:463-477 | grants exactly an empty key or one with neither result nor lock, which it locks; refuses exactly a locked key without a result; answers exactly with the stored response |
| MemoryStore.MemorySignerStore.SaveResult | store.go:479-488 | the save of the protocol, which overwrites and unlocks |
| MemoryStore.MemorySignerStore.ReleaseClaim | store.go:490-498 | the release of the protocol |
| MemoryStore.MemorySignerStore.GetResult | store.go:456-461 | the stored response, if there is one |
| MemoryStore.MemorySignerStore.ReserveChainNonce | store.go:532-542 | the reservation of the nonce counter |
| MemoryStore.MemorySignerStore.OpenCustodyIncident | store.go:507-514 | keeps an open incident, or opens one |
| MemoryStore.MemorySignerStore.ResolveCustodyIncident | store.go:525-530 | no incident is open |
| MemoryStore.MemorySignerStore.RecordCustodyEvent | store.go:500-505 | one event at the end |
| MemoryStore.MemorySignerStore.CreateSignerTransaction | store.go:552-557 | the record under its hash, others untouched |
| MemoryStore.MemorySignerStore.MarkSignerTransactionStatus | store.go:559-571 | marks exactly that row of the treasury |
| MemoryStore.MemorySignerStore.ListOpenSignerTransactions | store.go:573-586 | distinct open records, all of them unless the limit cuts the list |
| MemoryStore.MemorySignerStore.DailySubmittedOutflow | store.go:588-602 | the loop's sum is the treasury's outflow, in any order |
| PostgresStore.PostgresSignerStore.AcceptNonce | store.go:160-173 | the replay window's answer with the time to live in whole seconds, from two statements with a clock reading each; empty nonces are refused |
| PostgresStore.PostgresSignerStore.DeleteExpired | store.go:164 | keeps exactly what has not expired |
| PostgresStore.PostgresSignerStore.InsertNonce | store.go:165-172 | inserts exactly a missing nonce |
| PostgresStore.PostgresSignerStore.ClaimResult | store.go:194-211 | with nothing between its two statements it grants, refuses and answers exactly as the memory store does |
| PostgresStore.PostgresSignerStore.GetResult | store.go:175-192 | the stored response of a non-empty key |
| PostgresStore.PostgresSignerStore.InsertLock | store.go:201-210 | inserts exactly a missing lock |
| PostgresStore.PostgresSignerStore.ReleaseClaim | store.go:238-244 | the release of the protocol |
| PostgresStore.PostgresSignerStore.SaveResult | store.go:213-236 | keeps a response already stored, and unlocks |
| PostgresStore.PostgresSignerStore.ReserveChainNonce | store.go:291-318 | the reservation of the nonce table |
| PostgresStore.PostgresSignerStore.MarkChainNonce | store.go:320-334 | marks exactly the row of that nonce, if there is one |
| PostgresStore.PostgresSignerStore.OpenCustodyIncident | store.go:258-264 | gives way to any unresolved incident; never a second one |
| PostgresStore.PostgresSignerStore.ActiveCustodyIncident | store.go:266-281 | finds an incident exactly when one is unresolved |
| PostgresStore.PostgresSignerStore.ResolveCustodyIncident | store.go:283-289 | leaves none unresolved and drops none |
| PostgresStore.PostgresSignerStore.CreateSignerTransaction | store.go:336-348 | a known hash keeps amount and day and only takes the new status |
| PostgresStore.PostgresSignerStore.MarkSignerTransactionStatus | store.go:350-356 | marks exactly that row of the treasury |
| PostgresStore.PostgresSignerStore.DailySubmittedOutflow | store.go:387-409 | query and loop add up to the treasury's outflow since today |
| CustodyRuns.LockedIffUnresolved | custody_guard.go:76-127 | over any run of scans, unlocks and restarts, in any mode and under any changes of configuration: at most one incident is unresolved, and the guard is locked if and only if it is enabled and one is |
| CustodyRuns.LockdownLasts | custody_guard.go:198-225 | until the cooldown has passed since its incident was opened a lockdown outlasts repeated locks, unlock attempts and restarts |
| CustodyRuns.LateUnlockSucceeds | custody_guard.go:198-225 | after the cooldown an unlock opens the guard, resolves every open incident with its note and time, and changes no other |
| CustodyRuns.LockOpens | custody_guard.go:76-96 | a lock outside shadow mode leaves the incident already open, or a new one from now |
| CustodyRuns.HistoryStays | store.go:283-289 | resolved incidents are never changed or dropped |
| CustodyRuns.ActiveIsOpen | store.go:266-281 | the query finds an incident if and only if some row is unresolved, and then an unresolved one |
| CustodySpec.FirstRiskUnique | custody_guard.go:166-196 | a block has at most one first risk, so the recorded reason is determined |
| CustodyThreats.RiskIff | custody_guard.go:166-196 | an authorization is a risk exactly when a protected wallet signs a set-code transaction and its selector is disallowed, its delegate untrusted or its code not told; the kind is the first that holds |
| CustodyThreats.AnyRiskIff | custody_guard.go:156-196 | a block holds a risk exactly when it holds such a threat, and the reason is about the first one |
| CustodyThreats.ReasonTells | custody_guard.go:178-192 | the text begins with the kind and ends with what is to blame |
| CustodyThreats.UnprotectedIsSafe | custody_guard.go:172-175 | a block in which no protected wallet authorizes anything never locks |
| CustodyGuardClass.AnswerIs | custody_guard.go:143-164 | the block believed is that of the first endpoint that answers |
| CustodyGuardClass.CustodyGuard.ScanOnce | custody_guard.go:129-141 | one poll locks if and only if the pending or the latest block, as the first answering endpoint tells it, holds a set-code transaction authorized by a protected wallet with a disallowed selector, an untrusted delegate, or code whose hash is not told; the reason is about the first of these, by kind; it is a scan step of the runs |
| CustodyGuardClass.CustodyGuard.ScanBlockTag | custody_guard.go:143-164 | believes the first endpoint that answers |
| CustodyGuardClass.CustodyGuard.ScanBlock | custody_guard.go:156-162 | the same for one block; shadow mode never locks, and records exactly the events of its transactions |
| CustodyGuardClass.EachRiskyTransactionOnce | custody_guard.go:156-196 | in shadow mode a block is reported transaction by transaction, each that holds a risk exactly once |
| CustodyGuardClass.CustodyGuard.InspectTransaction | custody_guard.go:166-196 | the first authorization that is a risk locks with its reason, is recorded, and ends the loop |
| CustodyGuardClass.CustodyGuard.CheckAuthorization | custody_guard.go:172-195 | an authorization is a reason to lock exactly if it is such a threat; the reason and the event name the first of selector, delegate and code hash that holds |
| CustodyGuardClass.CustodyGuard.VerifyDelegateHash | custody_guard.go:248-269 | no error exactly when the first endpoint that answers tells the expected hash; the error tells a silent fleet from changed code |
| CustodySpec.ObservedIff | custody_guard.go:249-267 | the hash believed is that of the first answer |
| CustodyGuardClass.CustodyGuard.Lock | custody_guard.go:76-96 | the lock of the runs, and one event |
| CustodyGuardClass.CustodyGuard.Unlock | custody_guard.go:198-225 | the unlock of the runs; success leaves nothing unresolved |
| CustodyGuardClass.CustodyGuard.Start | custody_guard.go:98-118 | the restart of the runs: takes over the open incident, locks when a delegate's code cannot be read |
| CustodyGuardClass.CustodyGuard.LoadTrustedDelegateHashes | custody_guard.go:271-283 | succeeds if and only if every delegate has code, and then holds all their hashes |

## Left out

- HTTP routing, JSON, logging, environment loading and metrics: plumbing.
- Drivers of Postgres, Redis and the RPC endpoints: only the effect of each statement and the answer of each call appear; the ambiguity of a commit whose acknowledgement is lost does not.
- Mutexes: every memory-store call is one step, and the fleet, the limiters and the custody guard are used one call at a time. `sendCandidates` scores and reserves under separate locks, so its laws are about sequential runs.
- Rounding, underflow and overflow of float64 (sums and products are exact; infinities and NaN are modelled), and the formatting of amounts in error texts. `TreasurySent.ExponentPassesAnyBound` takes a parser that reads every numeral; the real one reads those in its range.
- Amount texts other than decimal numerals and NaN that ParseFloat takes: a leading plus, hexadecimal digits, infinities by name. They are covered by the statements about every text, not by those about numerals.
- An execution that returns an error is taken to have sent nothing; a broadcast that reached the chain although its call failed is not modelled.
- Settlements in the treasury sum: they bypass the check and record raw units (`main.go:739-749`), so the limits are about token texts no settlement uses. Their validation, operation id and ABI payload are left out too.
- Transfers that overlap between treasury check and record: the limits are proved for requests that run one after the other.
- Two token texts for one contract, such as two letter cases of an address, are separate treasury accounts, as in the source.
- `classifyRPCFailure`, endpoint names and the disabled reason: branch-only checks and texts. What a contract call's calldata moves is not tied to its amount, in the source either.
- Keccak, ECDSA and transaction signing; delegates, hashes and recovered authorities are given texts.
- Handlers.Handle: models the transfer and contract-call handlers; the settlement handler has the same flow but its execution is not modelled (its key fallback is in `Idempotency.EffectiveKey`).
- NonceValidation.ExactlyOneSucceeds: is about steps within one time to live of the first store, because a deletion that Exists started later can remove a newer entry.
- RpcFleetClass.RpcFleet.SendCandidates: is about rotation counters below 2^63, where the conversion to int stays non-negative.
- RpcFleetClass.RpcFleet.constructor: all endpoints start from one clock reading.
- SlidingWindowClass.SlidingWindow.AllowWithLimit: is about positive windows; TokenBucketClass.TokenBucket is about rates that are not negative.
- PostgresStore.PostgresSignerStore.AcceptNonce: the delete's own failure, which the source ignores.
- PostgresStore.PostgresSignerStore.ReserveChainNonce: the advisory lock is what makes it one step.
- CustodyRuns.LockdownLasts: is about cooldowns that fit a time.Duration in seconds and one clock for store and signer.
- CustodyRuns.LockedIffUnresolved: Lock, Unlock and restart-plus-Start are single steps over a store that does not fail; the moment between process start and reloading the incident is not shown.
- CustodyGuardClass.CustodyGuard.constructor: the error for a guard with no wallet to protect, and the parsing of its address and selector lists.
- Redis: its set-if-absent is not modelled. `ListOpenSignerTransactions` of the Postgres store, which orders by creation time, is not either.
