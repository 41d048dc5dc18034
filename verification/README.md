# Integration core: verified model

A Dafny model of the stateful parts of the integration service and proofs of what they keep over
every run. Each part is modelled twice where it changes state: once in the form the service has it
(a class whose methods update fields, proved against a specification function of the old state), and
once as a state machine whose steps are those same functions, interleaved without bound.

| part | modules |
|---|---|
| durable event outbox, its claims, publishes and marks | `Outbox`, `OutboxRuns`, `OutboxGuarantees` |
| Global ID allocation by entity, user and service | `GlobalIds`, `AllocationRuns`, `AllocationGuarantees` |
| circuit breaker and retrying client | `Breakers`, `CircuitRuns`, `Retry` |
| token-bucket rate limiter that forgets | `RateLimits`, `RateLimitRuns`, `RateLimitEntitlements`, `RateLimitClocks`, `ForgettingMatters` |
| search index, ranking, filtered paging | `Search`, `SearchPaging`, `Sorting`, `Cursors`, `Decimal` |
| notification paging | `Notifications` |
| last-administrator guard | `Administrators`, `AdministratorRuns` |
| relationship store | `Relationships`, `RelationshipStore`, `RelationshipRuns` |
| metric label sets | `Labels` |
| credential redaction | `Redaction`, `RedactionLines` |
| shared helpers | `Texts`, `Words`, `Wrappers` |

## How state, time and the outside are modelled

- PostgreSQL statements run one at a time on committed rows (READ COMMITTED). A transaction's own
  writes become visible when it commits; row locks, `FOR UPDATE SKIP LOCKED` and advisory locks are
  explicit, and a transaction that aborts or whose process dies leaves no row behind.
- The schema is that of the migrations: attempts start at 0, verdict columns start empty, prefixes
  differ between entity types, one entity row per (source, type, source id).
- The broker stores a message, stores it and loses the acknowledgement, or stores nothing.
- Clocks are parameters. The outbox lets every process pass any time at all. The rate limiter's clock
  never goes back, but a call reads it before it takes the mutex, so calls that overlap may be served
  with their readings in any order: `RateLimitRuns` assumes nothing about that order unless it says so,
  and `RateLimitClocks` shows that overlapping calls give exactly the runs it speaks of.
- Authorization is any fixed decision function that may also answer "unavailable".
- Tokens and rates are reals, delays are 64-bit integers that wrap, ids and counters are unbounded.
- The directory behind account administration is changed by nobody else, and a write is not applied
  after the lock that covered it is gone. The lock belongs to a database session: if that connection
  drops, the lock is gone while the callback of `internal/platformdb/lock.go:15-32` runs on, and this
  assumption with it.
- Notification ids are drawn before their rows become visible, so rows may appear in any order of id.
- A deletion of a relationship may fall between the two statements of a create.

## Where the code departs from its documentation, or may surprise

- `internal/platformdb/outbox.go:196-209`: the comment says a premature failure verdict is cleared;
  the statement clears nothing. `FailedExactlyWhenSpent` shows there is never one to clear, and
  `BothVerdictsAreReachable` that an event acknowledged on its twelfth attempt keeps both verdicts.
- `internal/adapters/httpx/breaker.go:29-31`: half-open is said to limit concurrent probes; the code
  limits probes in total and a probe that ends in a deterministic failure never returns its slot.
  `HalfOpenWedgesExactlyWhen` gives the exact condition under which the circuit stays half-open for
  ever.
- `internal/platformdb/identity.go:54-62`: the identity's entity row is skipped when one exists, so
  the two tables can hold different identifiers for one subject;
  `IdentityAndEntityAgreeExactlyWhen` says when.
- `internal/platformdb/relationships.go:158-161`: a repeated create is said to report the existing
  row; between its two statements the row can be deleted, and then it reports a failure
  (`NoRowIsReachable`, `RereadFailsExactlyWhenDeleted`). `related-to` is said to carry no direction,
  yet A–B and B–A are stored separately (`RelatedBothWaysIsReachable`).
- `internal/adapters/httpx/client.go:227-242`: the doubling delay is exact only while the shift stays
  below 2^63; `DelayExactlyWhen` and `DelayCanCollapse` say when it does not.
- `internal/ai/ai.go:174-211`: everything after a key's separator is said to go. Only the first place of
  each key is looked at, and the first such key of the list decides: in `pwd=1 secret=2` the first value
  stays (`ValueCanStay`); `ValueGoesExactlyWhen` says when a value goes.
- `internal/ratelimit/limiter.go:109-116`: forgetting is called approximate.
  `ForgettingIsHarmlessExactlyWhen` says, run by run, when it changes nothing, and `InvisibleExactlyWhen`
  for which settings it cannot be observed while calls that find no bucket come in order.
- `internal/ratelimit/limiter.go:73-95`: the clock is read before the mutex is taken and the reading is
  stored whatever it is, so an early reading served late moves a bucket's time back and the same seconds
  are credited twice. `OverlapExceedsWindowBound` is a run admitted three times where burst plus rate
  times elapsed is two; `OverlapCostsItsDelays` says how much more than that any run can get, and
  `OneAtATimeWindowBound` that a caller whose own calls do not overlap gets nothing more.

## Model

| member | source | states |
|---|---|---|
| `Outbox.BackoffDoublesThenCaps` | internal/platformdb/outbox.go:170-174 | the waits are 1 s, doubling with each earlier attempt, constant at 256 s from the eighth on |
| `Outbox.Store.EnqueueEvent` | internal/platformdb/outbox.go:79-112 | an event without id or subject is refused; a known id changes nothing; otherwise one new row with its subject, payload and time, no attempts and no verdict |
| `Outbox.Store.SelectDue` | internal/platformdb/outbox.go:135-141 | distinct due unlocked rows, oldest first, everything when it fits the limit, nothing older passed over |
| `Outbox.Store.ClaimDueEvents` | internal/platformdb/outbox.go:125-183 | claims such a selection, hands out each row's own subject, payload and time with its attempt already counted, and reschedules exactly those rows from their old attempt counts, failing them at the twelfth |
| `Outbox.Store.MarkDelivered` | internal/platformdb/outbox.go:190-194 | first acknowledgement wins: sets the delivery time once, clears the error, touches no other row |
| `Outbox.Store.MarkAttemptFailed` | internal/platformdb/outbox.go:196-210 | records at most 300 characters on an undelivered row and leaves the failure verdict as it is |
| `Outbox.Store.DeliverOutbox` | cmd/server/outbox.go:121-149 | every claimed event up to the first failing statement is published under its own subject with its own payload and settled by its own answer, the event of that statement is settled or not as the statement was applied, the rest stay merely claimed, unclaimed rows are untouched, and the count is of acknowledgements recorded |
| `Outbox.PassSettles` | cmd/server/outbox.go:126-147 | a settled event keeps its content, has one attempt more, and is delivered with its error cleared if acknowledged, undelivered with the reason (300 at most) if refused |
| `Outbox.AcknowledgementsCount` | cmd/server/outbox.go:126-148 | the number a pass returns is the number of events acknowledged |
| `Outbox.SelectionExists` | internal/platformdb/outbox.go:135-141 | the claiming query has an answer for every table, lock set, limit and clock |
| `OutboxRuns.StepKeepsInv` | internal/platformdb/outbox.go:125-210 | every step of every writer keeps the ledger of claims, the locks, the queues and the broker's record consistent |
| `OutboxRuns.ReachableInv` | cmd/server/outbox.go:121-176 | so do all interleavings of any number of processes, with crashes anywhere |
| `OutboxRuns.ContentIsAsQueued` | internal/platformdb/outbox.go:79-183 | over every run an event's row, and every publish call for it by any process on any attempt, carries the subject, payload and time of the first transaction that queued its id |
| `OutboxGuarantees.DeliveredWasAcknowledged` | internal/platformdb/outbox.go:185-194 | a row is marked delivered only after the broker stored and acknowledged that event |
| `OutboxGuarantees.DeliveryIsFinal` | internal/platformdb/outbox.go:135-141 | once delivered, no later run changes the mark, the attempt count or the claims |
| `OutboxGuarantees.EachAttemptHasOneOwner` | internal/platformdb/outbox.go:118-124 | attempt numbers of an event rise along the history of claims and stay within the budget: no two claims or processes share one |
| `OutboxGuarantees.EachAttemptIsSentOnce` | cmd/server/outbox.go:122-147 | an attempt is published only by the process that claimed it, and at most once |
| `OutboxGuarantees.PublishedAtMostTwelveTimes` | internal/platformdb/outbox.go:48-53 | publishes of an event never exceed its claims, which never exceed twelve |
| `OutboxGuarantees.FailedExactlyWhenSpent` | internal/platformdb/outbox.go:163-178 | the failure verdict is set if and only if twelve claims were made; the stored count is the number of claims |
| `OutboxGuarantees.DeliveredSpentOrDue` | internal/platformdb/outbox.go:114-124 | every committed event is delivered, out of claims, or due again within 256 s of its last claim |
| `OutboxGuarantees.LocksAreLetGo` | internal/platformdb/outbox.go:118-134 | a locked row belongs to a claim whose process can drop it or crash in its next step, and either frees it |
| `OutboxGuarantees.DueMeansClaimable` | internal/platformdb/outbox.go:135-141 | an idle process can claim a due unlocked row in one step unless its batch is full of rows no younger |
| `OutboxGuarantees.PassTakes` | cmd/server/outbox.go:121-149 | a pass, whatever the broker answers, takes from the due unlocked rows exactly those it claimed: a full batch or all there were |
| `OutboxGuarantees.PassesDrain` | cmd/server/outbox.go:152-176 | repeated passes at one clock reading leave no due unlocked row if and only if passes × limit reaches the number due; each of those rows is then claimed exactly once, and no row ever twice |
| `OutboxGuarantees.ClaimsAreSpaced` | internal/platformdb/outbox.go:167-178 | whatever clocks the processes pass, claims of one event are at least the scheduled waits apart |
| `OutboxGuarantees.FailedNoSoonerThan` | internal/platformdb/outbox.go:163-178 | no event fails sooner than 1023 s after its first claim |
| `OutboxGuarantees.BothVerdictsAreReachable` | internal/platformdb/outbox.go:163-194 | a run ends with a row both delivered and failed |
| `OutboxGuarantees.BothVerdictsExactlyWhen` | internal/platformdb/outbox.go:163-194 | a step gives a row both verdicts if and only if it records the broker's acknowledgement of an undelivered event whose twelve claims were made; no other step does |
| `GlobalIds.FormatInjective` | internal/platformdb/db.go:390-390 | an identifier determines its prefix and its number, whatever dashes the prefix holds and past six digits |
| `GlobalIds.AllocationIsIdempotent` | internal/platformdb/db.go:369-377 | asking again returns the same identifier, created false, and changes no table |
| `GlobalIds.MintWrites` | internal/platformdb/db.go:382-426 | a mint spelled out: prefix, dash and padded number; one counter moved by one; the entity row, for identities under source authentik unless one was there; one event |
| `GlobalIds.SightedSubjectIsKnown` | internal/platformdb/identity.go:54-62 | after a subject's first sighting, asking for its authentik record returns the same identifier, created false, and changes nothing, unless the record had a row before; users and services alike |
| `GlobalIds.IdentityMatchesEntityExactlyWhen` | internal/platformdb/identity.go:54-62 | at first sight, and with an identifier no row holds yet, the entity table knows the identity by it if and only if it had no row for the subject |
| `GlobalIds.Store.CreateGlobalEntity` | internal/platformdb/db.go:362-427 | alone: the existing identifier, or a mint that moves one counter, adds one row and one event; an unregistered type changes nothing |
| `GlobalIds.Store.EnsureIdentity` | internal/platformdb/identity.go:12-80 | alone: the same for a subject, with the row of (authentik, user, subject) added unless one is there |
| `GlobalIds.Store.EnsureServiceIdentity` | internal/platformdb/service_identity.go:19-93 | alone: the same for a service subject, in its own numbering and under (authentik, service, subject) |
| `GlobalIds.Store.MapGlobalIDs` | internal/platformdb/db.go:638-691 | leaves the tables that one call per non-empty request in order leaves, and answers exactly the non-empty ids asked for; a refusal changes nothing |
| `GlobalIds.BatchMintsOncePerNewId` | internal/platformdb/db.go:638-691 | a batch is refused exactly when it needs a mint of an unregistered type, and otherwise mints once per distinct new id, the counter moving by as many |
| `AllocationRuns.MintKeepsBooks` | internal/platformdb/db.go:382-426 | a committed mint keeps counters, numbering, rows and creation events in step |
| `AllocationRuns.ApplyIsMint` | internal/platformdb/db.go:382-423 | what a transaction prepared under its locks is, at commit, exactly a mint on the tables of that moment |
| `AllocationRuns.StepKeepsInv` | internal/platformdb/db.go:362-463 | every statement of every concurrent transaction keeps the books and every other transaction's knowledge true |
| `AllocationRuns.ReachableInv` | internal/platformdb/db.go:362-463 | so does every interleaving, aborted transactions included |
| `AllocationGuarantees.DistinctRecordsDiffer` | internal/platformdb/db.go:382-390 | distinct records and subjects never share an identifier |
| `AllocationGuarantees.AnswersNeverChange` | internal/platformdb/db.go:369-377 | an identifier once held for a record is held for ever |
| `AllocationGuarantees.OneRecordOneId` | internal/platformdb/service_identity.go:26-40 | all calls for one record return one identifier, and at most one is told that it created it |
| `AllocationGuarantees.LoserGetsTheWinnersId` | internal/platformdb/db.go:394-408 | a call that loses the insert always finds the winner's row, returns its identifier and leaves no trace |
| `AllocationGuarantees.CountersCountMints` | internal/platformdb/db.go:382-389 | each counter has moved by exactly the committed mints of its type |
| `AllocationGuarantees.OneAnnouncementPerMint` | internal/platformdb/db.go:410-422 | there is exactly one creation event per identifier held, and none for an identifier not held |
| `AllocationGuarantees.IdentityAndEntityAgreeExactlyWhen` | internal/platformdb/identity.go:54-62 | over any run, identity and entity row agree if and only if nobody minted for that row as an upstream record |
| `AllocationGuarantees.SightedSubjectStaysKnown` | internal/platformdb/identity.go:54-62 | over any run a sighted subject's authentik record has a row, and asking for it returns the identity's identifier and mints nothing if and only if nobody minted for that record itself |
| `AllocationGuarantees.AloneIsAllocate` | internal/platformdb/db.go:362-463 | a call whose statements run without interference does what the sequential operation does, answer and tables |
| `Breakers.Defaulted` | internal/adapters/httpx/breaker.go:70-81 | usable settings are kept; an unusable duration becomes 30 s, an unusable probe count one; the threshold is never touched |
| `Breakers.Breaker.constructor` | internal/adapters/httpx/breaker.go:70-81 | a breaker starts closed, in its first episode, with completed settings |
| `Breakers.Breaker.MoveTo` | internal/adapters/httpx/breaker.go:133-137 | every transition is counted and starts a new episode |
| `Breakers.Breaker.Allow` | internal/adapters/httpx/breaker.go:102-130 | admission, ticket and new state of each circuit state, an expired window becoming the first probe |
| `Breakers.Breaker.Succeed` | internal/adapters/httpx/breaker.go:144-168 | new state after a success, by ticket and circuit state |
| `Breakers.Breaker.Fail` | internal/adapters/httpx/breaker.go:172-202 | new state after a failure, by ticket, kind and circuit state |
| `Breakers.Breaker.State` | internal/adapters/httpx/breaker.go:205-217 | reports open exactly when the next call would be refused by an open circuit |
| `CircuitRuns.ReachableInv` | internal/adapters/httpx/breaker.go:102-202 | over every interleaving, the breaker's counters are what the history of the current period says |
| `CircuitRuns.OpensExactlyWhen` | internal/adapters/httpx/breaker.go:172-202 | the circuit opens if and only if a current probe has a counted failure, or current closed-period calls complete a run of FailureThreshold counted failures with no success between |
| `CircuitRuns.ClosesExactlyWhen` | internal/adapters/httpx/breaker.go:144-168 | it closes if and only if HalfOpenProbes current probes have succeeded |
| `CircuitRuns.ProbesExactlyWhen` | internal/adapters/httpx/breaker.go:109-122 | half-open starts if and only if a call arrives once OpenFor has passed, and that call is the only probe then |
| `CircuitRuns.StaleReportsIgnored` | internal/adapters/httpx/breaker.go:85-98 | a report from an earlier period changes nothing |
| `CircuitRuns.PeriodBounds` | internal/adapters/httpx/breaker.go:109-130 | closed holds fewer than FailureThreshold failures, open has no current ticket out, each half-open period admits at most HalfOpenProbes calls in total |
| `CircuitRuns.OpenWindowHolds` | internal/adapters/httpx/breaker.go:109-118 | until OpenFor has passed nothing ends, moves or shortens the open window and nothing is admitted |
| `CircuitRuns.HalfOpenWedgesExactlyWhen` | internal/adapters/httpx/breaker.go:109-202 | half-open is never left again if and only if its probes are spent and none is in flight |
| `CircuitRuns.WedgeIsReachable` | internal/adapters/httpx/breaker.go:172-176 | under every usable setting a run gets there |
| `CircuitRuns.FailureRunIsLongest` | internal/adapters/httpx/breaker.go:184-201 | the failure counter's meaning: the longest run of counted failures that ends the evidence |
| `CircuitRuns.DisabledAdmitsEveryCall` | internal/adapters/httpx/breaker.go:83-105 | with a threshold of zero or less every call of every run is admitted and the breaker never changes |
| `Retry.DeterministicStatuses` | internal/adapters/httpx/errors.go:97-133 | exactly 401, 403 and 404 are failures that are neither retried nor counted |
| `Retry.RetriedKindsAreThoseOfStatuses` | internal/adapters/httpx/errors.go:97-106 | a failure without a status is retried only if its kind is that of a retried status |
| `Retry.VerdictTells` | internal/adapters/httpx/client.go:180-204 | what a call reports to the breaker: success, a failure that counts, or for the three statuses one that does not |
| `Retry.DelayDoublesThenCaps` | internal/adapters/httpx/client.go:227-242 | if BaseDelay × MaxDelay < 2^63, the wrapping shift and its clamp give min(BaseDelay × 2^(attempt−1), MaxDelay) for every attempt, shifts past 63 bits included |
| `Retry.DelayExactlyWhen` | internal/adapters/httpx/client.go:227-242 | for any policy an attempt misses that delay if and only if the product overflows and the base delay's bits that stay in the word make a positive delay below the cap; from the 65th attempt on it never does |
| `Retry.ShiftIs` | internal/adapters/httpx/client.go:237-237 | the shift in 64-bit arithmetic: the low bits kept, moved up, negative when the highest kept one is set |
| `Retry.DelayCanCollapse` | internal/adapters/httpx/client.go:227-242 | a policy whose shift overflows into a shorter delay |
| `Retry.BackoffInRange` | internal/adapters/httpx/client.go:227-242 | with any jitter and any Retry-After each sleep is between 1 ns and MaxDelay |
| `Retry.JitterCoversTheDelay` | internal/adapters/httpx/client.go:353-360 | without a Retry-After each of 1 … delay nanoseconds is slept for exactly one of the draws 0 … delay − 1 |
| `Retry.SleepBudget` | internal/adapters/httpx/client.go:161-205 | one call sleeps at most (attempts − 1) × MaxDelay in all |
| `Retry.Client.constructor` | internal/adapters/httpx/client.go:81-131 | the policy with each missing part defaulted, the whole of it without attempts; the breaker starts closed |
| `Retry.Client.Do` | internal/adapters/httpx/client.go:161-205 | a refused call never reaches the upstream; an admitted one retries only what may be retried, stays in its budget and reports its ticket once |
| `RateLimits.Limiter.constructor` | internal/ratelimit/limiter.go:48-57 | per-minute rate, burst, ten idle minutes, ten thousand keys, no bucket |
| `RateLimits.Limiter.Allow` | internal/ratelimit/limiter.go:75-107 | the call served with the time it read earlier, whatever that is: answer, wait and buckets after; sweep only for a new key, refill capped at the burst, one token or the wait for one |
| `RateLimits.Limiter.Sweep` | internal/ratelimit/limiter.go:117-140 | drops exactly the idle buckets and, when still full, one stalest, whatever order the map is walked in |
| `RateLimits.Limiter.Tracked` | internal/ratelimit/limiter.go:144-148 | the number of buckets held |
| `RateLimits.EarnedIsRateTimesTime` | internal/ratelimit/limiter.go:85-88 | what a bucket accrues is the rate times the seconds passed |
| `RateLimitEntitlements.AdmittedExactlyWhen` | internal/ratelimit/limiter.go:75-106 | on any run, readings and evictions arbitrary: a call is admitted if and only if, from every call of its key since its bucket was made, those admitted and this one are within burst + rate × (time its readings moved on) |
| `RateLimitEntitlements.RefusedOnlyWhenSpent` | internal/ratelimit/limiter.go:82-106 | a caller whose readings rise is refused if and only if since some earlier call of its own the calls admitted and this one exceed burst + rate × time |
| `RateLimitRuns.MemoryIsBounded` | internal/ratelimit/limiter.go:110-140 | every run over non-empty keys, with readings in any order, holds at most maxKeys buckets of 0 to burst tokens |
| `RateLimitRuns.ForgetsOnlyIdleOrStalest` | internal/ratelimit/limiter.go:117-140 | a bucket is forgotten only if it was not seen for longer than the idle time, or if the map is full of others and none of them was seen earlier; and at most one of the latter |
| `RateLimitRuns.IdleIsForgotten` | internal/ratelimit/limiter.go:117-140 | a call that finds no bucket leaves no idle one behind |
| `RateLimitRuns.IdleIsFull` | internal/ratelimit/limiter.go:83-94 | if burst ≤ rate × idle an idle bucket is a full one |
| `RateLimitRuns.ForgettingIsHarmlessExactlyWhen` | internal/ratelimit/limiter.go:69-140 | on any run, readings and evictions arbitrary, every call draws on the bucket of a limiter that never forgets if and only if no call comes back to a forgotten bucket before it has filled; the answers are then that limiter's |
| `RateLimitRuns.ForgettingIsInvisible` | internal/ratelimit/limiter.go:69-140 | if burst ≤ rate × idle, nothing is evicted and calls that find no bucket come in order, every answer is that of a limiter that never forgets |
| `RateLimitRuns.AnyClockWindowBound` | internal/ratelimit/limiter.go:75-140 | on any run and settings, between two calls of a key it is admitted at most burst × (1 + times its bucket was forgotten) + rate × (readings' advance + their steps back) |
| `RateLimitRuns.OverlappingWindowBound` | internal/ratelimit/limiter.go:75-140 | burst + rate × (advance + steps back) if also burst ≤ rate × idle, nothing is evicted and calls that find no bucket come in order |
| `RateLimitRuns.WindowBound` | internal/ratelimit/limiter.go:78-106 | burst + rate × window length, in any window, if moreover all readings come in order |
| `RateLimitClocks.TurnsAreARun` | internal/ratelimit/limiter.go:73-76 | overlapping calls over a clock that never goes back make such a run, each served no earlier than it read |
| `RateLimitClocks.EveryRunIsReachable` | internal/ratelimit/limiter.go:73-76 | and every such run, whatever the order of its readings, is made by some |
| `RateLimitClocks.SetbacksAreDelays` | internal/ratelimit/limiter.go:73-95 | readings of a key step back by no more than its calls stood between reading the clock and being served |
| `RateLimitClocks.OverlapCostsItsDelays` | internal/ratelimit/limiter.go:73-106 | so overlap costs at most the rate times those delays |
| `RateLimitClocks.OneAtATimeWindowBound` | internal/ratelimit/limiter.go:73-106 | a key whose own calls do not overlap gets nothing for steps back, however other keys' calls overlap |
| `RateLimitClocks.OverlapExceedsWindowBound` | internal/ratelimit/limiter.go:73-95 | a run over such a clock admits three calls where burst + rate × elapsed is two |
| `RateLimitClocks.OverlapShowsForgetting` | internal/ratelimit/limiter.go:73-124 | a run over such a clock, with burst ≤ rate × idle, admits a call that a limiter that never forgets refuses |
| `RateLimitRuns.WaitIsEnough` | internal/ratelimit/limiter.go:97-106 | the wait told to a refused caller suffices, and above its one-second floor nothing shorter does |
| `ForgettingMatters.ForgettingShows` | internal/ratelimit/limiter.go:69-140 | if burst > rate × idle some run with its readings in order is admitted a call that a limiter that never forgets refuses |
| `ForgettingMatters.InvisibleExactlyWhen` | internal/ratelimit/limiter.go:69-140 | forgetting idle buckets is invisible on every run without evictions in which calls that find no bucket come in order, if and only if burst ≤ rate × idle |
| `Search.Tokenize` | internal/search/search.go:291-302 | the loop yields the terms of the text |
| `Search.TermsAreTheRuns` | internal/search/search.go:288-316 | those terms are the maximal runs: the folded text is the terms in order with only separators around them and at least one between any two |
| `Search.TermsAreTerms` | internal/search/search.go:291-316 | every token is non-empty, folded and free of separators |
| `Search.TermsIgnoreCase` | internal/search/search.go:291-302 | capitals make no difference to the terms |
| `Search.FieldScore` | internal/search/memory.go:180-191 | the best match of a term among a field's tokens |
| `Search.Score` | internal/search/memory.go:163-178 | sum over the terms, a title match counting double a summary match, nothing if a term matches neither |
| `Search.EachTermAdds` | internal/search/memory.go:163-191 | each term adds 4 for an equal title token, 2 for one it begins, and half of either for the summary; a term that begins none ends the match |
| `Search.BetterMatchScoresMore` | internal/search/memory.go:156-178 | an equal title token outweighs one merely begun, and a match in the title the same match in the summary |
| `Search.MatchesEveryTerm` | internal/search/memory.go:156-178 | a document scores if and only if every term of a non-empty query begins some token of it |
| `Search.RankingIsUnique` | internal/search/memory.go:100-134 | score, recency and id fix one order of the candidates, however the index is scanned and sorted |
| `Search.RankingExists` | internal/search/memory.go:100-134 | and every query has it |
| `Search.RankingTells` | internal/search/memory.go:82-134 | a ranking holds exactly the documents of an asked kind, under some held permission, that every term matches; higher score first, then later update, then smaller id |
| `Search.WindowIs` | internal/search/memory.go:136-145 | offset and limit cut the ranking without loss between neighbouring windows; no limit means all |
| `Sorting.LessExactlyWhen` | internal/search/memory.go:131-131 | ids compare by their first difference, a prefix before what continues it |
| `Search.Memory.Index` | internal/search/memory.go:38-58 | a batch is upserted whole or not at all |
| `Search.Memory.Delete` | internal/search/memory.go:63-73 | exactly the named documents go, spaces around an id aside; absent ones are no error |
| `Search.Memory.Search` | internal/search/memory.go:82-145 | the window of the one ranking, and its whole size |
| `Search.UpsertedAt` | internal/search/memory.go:52-57 | after a batch each id holds the last document the batch gives it, else what it held |
| `Search.ReplayIsSafe` | internal/search/memory.go:35-58 | indexing the same batch twice is indexing it once |
| `SearchPaging.MayRead` | cmd/server/search.go:144-161 | tries the permissions in order until one decides |
| `SearchPaging.AnyPermissionIsEnough` | cmd/server/search.go:144-161 | allowed if and only if some permission is allowed; a document with none is visible to nobody |
| `SearchPaging.FirstDecisionCounts` | cmd/server/search.go:147-161 | the first permission not denied decides, an unavailable service included |
| `SearchPaging.PermittedHits` | cmd/server/search.go:123-142 | the scan that stops when the page is full |
| `SearchPaging.ScanStopsInTime` | cmd/server/search.go:123-142 | a page is the readable candidates among those consumed, never past its limit, and stops early only when full |
| `SearchPaging.ScanFailsExactlyWhen` | cmd/server/search.go:123-142 | a page is refused if and only if the service fails on a candidate the page still needs |
| `SearchPaging.RankingIgnoresWindow` | internal/search/memory.go:121-144 | where a page starts and how long it is have no say in the ranking |
| `SearchPaging.HandleSearch` | cmd/server/search.go:62-111 | page and next cursor, invalid cursor and undecidable authorization included |
| `SearchPaging.PageAdvances` | cmd/server/search.go:74-111 | a page takes the candidates from its offset up to where its next cursor resumes, always moves on, and stops short only after four times its size, 100 at most, or at the end |
| `SearchPaging.FollowingTheCursor` | cmd/server/search.go:74-142 | following the cursor over an unchanged index ends and yields exactly the permitted candidates, each once, higher score first, then later update, then smaller id, for any page sizes |
| `Sorting.SortedIsUnique` | internal/search/memory.go:121-132 | a bag of elements that the order separates has one sorted arrangement |
| `Sorting.SortBySorts` | internal/observability/metrics.go:87-87 | the sort used by the model sorts under any strict weak order |
| `Sorting.SortByPermutes` | internal/observability/metrics.go:87-87 | and only permutes |
| `Cursors.CursorRoundTrip` | internal/search/search.go:257-286 | every position survives encode and decode, and each collection refuses the other's cursor |
| `Cursors.DecodesOnlyPositions` | internal/search/search.go:268-286 | a cursor is read if and only if it is the prefix and a positive 64-bit decimal, and as that number |
| `Decimal.ItoaAtoi` | internal/search/search.go:264-283 | decimal text of a 64-bit position reads back as that position |
| `Decimal.Pad6Injective` | internal/platformdb/db.go:390-390 | zero padding to six digits loses nothing, numbers past six digits included |
| `Decimal.Pad6Reads` | internal/platformdb/db.go:390-390 | padded numerals read as their number: six digits up to 999999, no leading zero past that |
| `Notifications.ConfinedSeesOnlyItsOwn` | cmd/server/notifications.go:34-46 | a confined principal sees exactly what is addressed to it |
| `Notifications.OthersSeeTheirAudiences` | internal/platformdb/notifications.go:44-54 | anyone else sees its own and exactly the audiences it holds, all of them with "*" |
| `Notifications.Store.DrawID` | internal/platformdb/notifications.go:66-72 | a new id, never one given before, and no row yet |
| `Notifications.Store.InsertNotification` | internal/platformdb/notifications.go:62-74 | the row becomes visible under an id drawn earlier, not necessarily the largest |
| `Notifications.Store.MarkNotificationRead` | internal/platformdb/notifications.go:137-166 | marks a visible notification for this reader; an invisible one answers like a missing one |
| `Notifications.MarkReadsAsRead` | internal/platformdb/notifications.go:82-166 | from then on the row reads as read to the reader that marked it and to nobody else, leaves its unread listing, and its unread count falls by one unless the mark was there |
| `Notifications.ReadMeansMarked` | internal/platformdb/notifications.go:56-60 | a listed row reads as read if and only if this reader marked it, and an unread listing holds none such |
| `Notifications.Store.QueryPage` | internal/platformdb/notifications.go:99-126 | the newest matching rows older than the cursor, up to the limit |
| `Notifications.Store.ListNotifications` | internal/platformdb/notifications.go:82-129 | that page with the number of visible rows and of those not marked by the reader |
| `Notifications.Store.HandleList` | cmd/server/notifications.go:48-84 | page and next cursor; a malformed cursor is refused |
| `Notifications.DescendingSplits` | internal/platformdb/notifications.go:99-106 | the first n ids and what is older than the n-th make the whole listing |
| `Notifications.WritersDoNotDisturb` | internal/platformdb/notifications.go:62-166 | inserting a row under any new id or marking a row already given keeps what a walk relies on |
| `Notifications.PageAt` | cmd/server/notifications.go:60-83 | a cursor's page, and a next cursor if and only if the page is full |
| `Notifications.WalkReturnsTheFirstRead` | cmd/server/notifications.go:60-83 | walking by cursor while rows arrive under any ids ends, in strictly descending order, with every row of the first read; the rest are exactly the rows that arrived since and matched below the cursor when a page was read; for any page sizes, exact multiples included |
| `Notifications.LargerIdsAddNothing` | cmd/server/notifications.go:60-83 | if rows arrive with larger ids only, the walk returns the first read and no more |
| `Administrators.UniqueStrings` | cmd/server/admin_accounts.go:649-659 | first occurrences of the non-empty values, in order |
| `Administrators.RoleChangeMovesOnlyTheRole` | cmd/server/admin_accounts.go:272-295 | a role change leaves exactly the human group asked for and every other group in order |
| `Administrators.DemotesExactlyWhen` | cmd/server/admin_accounts.go:297-306 | the guard looks at exactly the updates that cost an active human administrator |
| `Administrators.LastAdminExactlyWhen` | cmd/server/admin_accounts.go:306-314 | an update is refused as the last administrator's if and only if carrying it out would leave none |
| `Administrators.RefusedExactlyWhen` | cmd/server/admin_accounts.go:222-278 | every other refusal if and only if its condition holds and none before it does: nothing asked, unknown role, no such user, service account, no human group, administrator target without administrator access, missing group |
| `Administrators.ServiceAndHumanAre` | cmd/server/admin_accounts.go:255-263 | service accounts by kind or group, human ones by the seven groups, active administrators by both |
| `Administrators.UpdateWrites` | cmd/server/admin_accounts.go:272-320 | an update that is not refused writes exactly the fields asked for, and for a role its one human group beside every other group kept |
| `Administrators.OthersLeaveAdministratorsAlone` | cmd/server/admin_accounts.go:264-266 | an update by anyone but an administrator leaves every account of the administrators' group as it was and lets nobody into it |
| `Administrators.Directory.ActiveAdminCount` | cmd/server/admin_accounts.go:636-647 | the number of active human administrators |
| `Administrators.Directory.Regroup` | cmd/server/admin_accounts.go:272-294 | the loops that replace the human groups by the target |
| `Administrators.Directory.UpdateAccount` | cmd/server/admin_accounts.go:222-322 | every refusal in its order, and otherwise exactly the one user patched |
| `AdministratorRuns.StepKeepsInv` | internal/platformdb/lock.go:15-32 | every step keeps the lock exclusive, what its holder read true, and an administrator in place |
| `AdministratorRuns.AnAdministratorRemains` | cmd/server/admin_accounts.go:249-322 | from a directory with an active human administrator every interleaving, failures and crashes anywhere, leaves one, with one process inside at a time |
| `AdministratorRuns.OthersNeverTouchAdministrators` | cmd/server/admin_accounts.go:131-137 | over any run of updates and creations that no administrator asked for, the members of that group and their accounts stay as they were |
| `AdministratorRuns.WritesAsIfAlone` | cmd/server/admin_accounts.go:249-322 | what a process writes is what the update alone would write to the directory of that moment |
| `Relationships.SameEdgeExactlyWhen` | internal/platformdb/relationships.go:66-74 | two spellings name one edge if and only if they are equal or one is the other turned round; related-to has no turned-round spelling |
| `Relationships.OtherLabelHolds` | internal/platformdb/relationships.go:31-83 | inverting a label twice gives it back, and only related-to is its own inverse |
| `Relationships.LabelsReadAs` | internal/platformdb/relationships.go:32-83 | the label each of the eight relations carries from its other end, and back |
| `Relationships.CheckedExactlyWhen` | internal/platformdb/relationships.go:167-185 | each refusal before the database if and only if its condition holds and none before it does; otherwise the edge as spelled, or turned round under an inverse label |
| `Relationships.CreationKeepsInv` | internal/platformdb/migrations/019_entity_relationships.sql:29-60 | a new row keeps edges sound and unique, the audit trail exact and the events beside it |
| `Relationships.DeletionKeepsInv` | internal/platformdb/relationships.go:343-402 | so does a deletion |
| `RelationshipStore.Store.CreateRelationship` | internal/platformdb/relationships.go:167-266 | every refusal in its order; an existing edge is returned unchanged; otherwise one row, one audit and one "relationship.created" event with the row's fields |
| `RelationshipStore.Store.LookupRelationship` | internal/platformdb/relationships.go:272-301 | finds the edge in either spelling if and only if it is stored, and changes nothing |
| `RelationshipStore.Store.ListRelationships` | internal/platformdb/relationships.go:307-336 | each end of a row at the identifier once, oldest first, labelled from that end |
| `RelationshipStore.Store.DeleteRelationship` | internal/platformdb/relationships.go:343-402 | removes exactly that row with one audit and one "relationship.deleted" event with its fields; a missing row is no error and leaves no trace |
| `RelationshipStore.ListedOnceIfStored` | internal/platformdb/relationships.go:307-336 | a listing shows an identifier under a label and direction once if that edge is stored, else not at all |
| `RelationshipStore.ListedFromBothEnds` | internal/platformdb/relationships.go:303-336 | a stored edge is listed once from either end, under its relation and under the other label; an edge not stored from neither |
| `RelationshipStore.ListingsMirror` | internal/platformdb/relationships.go:303-336 | g lists h under a label exactly as often as h lists g under the other label in the opposite direction |
| `RelationshipRuns.ReachableInv` | internal/platformdb/relationships.go:167-402 | every run of creates, deletes, rereads and rollbacks keeps rows, audits and events in step |
| `RelationshipRuns.EdgesAreSoundAndUnique` | internal/platformdb/relationships.go:66-74 | over every run no self edge and no edge stored twice under either spelling |
| `RelationshipRuns.TrailTellsTheRows` | internal/platformdb/relationships.go:228-259 | rows are created audits less deleted ones, one by one and in number; events repeat audits one for one |
| `RelationshipRuns.EventsTellTheRows` | internal/platformdb/relationships.go:228-259 | over every run, storing a row queues one "relationship.created" and deleting it one "relationship.deleted", with the row's fields, and nothing else queues any |
| `RelationshipRuns.RereadFailsExactlyWhenDeleted` | internal/platformdb/relationships.go:190-213 | a create that met a stored edge reads nothing back if and only if the audit trail since then holds a deletion of the edge and no creation of it after that |
| `RelationshipRuns.DeletedSinceExactlyWhen` | internal/platformdb/relationships.go:228-259 | an edge last created before a point of the trail is last deleted now if and only if it was deleted since for good |
| `RelationshipRuns.NoRowIsReachable` | internal/platformdb/relationships.go:190-213 | a run gets there |
| `RelationshipRuns.RelatedBothWaysIsReachable` | internal/platformdb/relationships.go:27-31 | a run stores related-to both ways round |
| `Labels.EscapeUndone` | internal/observability/metrics.go:91-97 | a scraper reads back the escaped value and exactly the text after it |
| `Labels.EscapedStaysOnOneLine` | internal/observability/metrics.go:91-97 | a rendered value holds no line end |
| `Labels.MakeLabelSet` | internal/observability/metrics.go:72-89 | rendered pairs, sorted, joined, missing values empty |
| `Labels.MissingReadsAsEmpty` | internal/observability/metrics.go:76-81 | a missing value keys the same series as an empty one, and a surplus one is ignored |
| `Labels.OrderIgnoresValues` | internal/observability/metrics.go:76-88 | the order of the pairs depends on the names alone |
| `Labels.SortRendered` | internal/observability/metrics.go:86-88 | sorting rendered pairs is rendering pairs sorted by name |
| `Labels.LabelSetIdentifies` | internal/observability/metrics.go:72-97 | for distinct names without `=`, two series share a key if and only if their values agree |
| `Labels.CounterVec.Add` | internal/observability/metrics.go:134-139 | exactly the series with those values moves, by delta |
| `Labels.Histogram.Observe` | internal/observability/metrics.go:348-365 | exactly the buckets with a bound no lower than the value grow by one, sum and count move with it; all stay those of the observations made |
| `Labels.BucketsAreCumulative` | internal/observability/metrics.go:359-364 | a higher bound never counts fewer |
| `Labels.BucketsCountUpToTheBound` | internal/observability/metrics.go:359-363 | a bucket counts the observations up to its bound, an equal one included |
| `Redaction.RedactPEM` | internal/ai/ai.go:277-297 | the loop that rescans from the start ends, and does what one pass over the blocks does |
| `Redaction.BlockIsLong` | internal/ai/ai.go:277-297 | why it ends: a terminated block is longer than the marker that replaces it, and an unterminated one, no shorter than the marker, reaches to the end of the text |
| `Redaction.RescanResumes` | internal/ai/ai.go:277-297 | rescanning finds nothing in what is already clean |
| `Redaction.ScrubRemovesBlocks` | internal/ai/ai.go:277-297 | no block marker survives |
| `Redaction.CleanTextIsKept` | internal/ai/ai.go:277-297 | text without a marker passes unchanged, and a second pass changes nothing |
| `Redaction.OnlyBlocksGo` | internal/ai/ai.go:277-297 | the text is kept stretches between whole blocks, and the result is those stretches in order |
| `Redaction.RedactSecretLookingWords` | internal/ai/ai.go:226-241 | replaces exactly the words the heuristic picks, keeping spacing |
| `Redaction.Redact` | internal/ai/ai.go:161-172 | blocks first, then every line by key or by word |
| `Redaction.KeyedIsClean` | internal/ai/ai.go:189-210 | the key pass brings no marker back |
| `Redaction.RedactIsClean` | internal/ai/ai.go:161-241 | no text that has been through Redact holds a block marker |
| `RedactionLines.LooksSecretExactlyWhen` | internal/ai/ai.go:243-274 | a word looks secret if and only if seven characters follow a known prefix, or it is sixteen letters, digits and separators with some of both |
| `RedactionLines.WordByWord` | internal/ai/ai.go:224-241 | as many words come out as go in, those that look secret without their secret, the others as they were, and none that comes out looks secret |
| `RedactionLines.KeyPass` | internal/ai/ai.go:188-211 | the first key of the list whose first place in the line is a use decides: nothing of the line after it is kept; without one the key pass does nothing |
| `RedactionLines.ValueGoesExactlyWhen` | internal/ai/ai.go:174-211 | where a key is used, the value after it goes if and only if the key that decides ends no later |
| `RedactionLines.ValueCanStay` | internal/ai/ai.go:174-211 | a line where it ends later, and the value stays |
| `RedactionLines.LineByLine` | internal/ai/ai.go:161-172 | after the blocks every line is treated by itself: as many lines come out, in order, and as many as went in when there was no block |
| `RedactionLines.PlainLineIsKept` | internal/ai/ai.go:181-241 | a line none of whose keys is used and none of whose words looks secret is left as it is |

## Left out

- HTTP decoding, status codes, logging, routes, minimum query length, type lists and document
  normalisation: request plumbing before and after the modelled operations.
- PostgreSQL, NATS and JetStream internals, connection loss during a statement other than as "applied
  or not, result unknown", and deadlock detection.
- Upstream adapters, the directory's own API, AI providers, signature and key handling.
- base64url, JSON and random numbers: a cursor token carries its decoded body, jitter is any draw.
- `authz.Evaluate`, module administration, support state and SLA, severities and the mapping audit:
  decision tables.
- Case folding outside ASCII, float rounding, nanosecond truncation, clocks that go back (except in
  the outbox and in the limiter's results for readings in any order), overflow of 64-bit counters.
- `UpsertIdentity`, `LookupGlobalEntity`, `OutboxState`, `Stats` and the read-only listings beside the
  modelled operations; tenants and metadata of entities; names, groups and times of identities.
- `runOutbox`: the endless loop only repeats passes; the runs contain every number of passes.
- The bucket map of a histogram vector: one series is modelled, its key is `Labels.LabelSetIdentifies`.
- Gauges, sampled metrics and the text exposition around the label sets.
- Password setting, e-mail syntax and user-name conflicts of account administration; creating an
  account appears in the runs as its check of the caller and its two directory writes.
- RedactionLines.LooksSecretExactlyWhen: counts characters, where the code counts bytes.
- Outbox.Store.MarkAttemptFailed: clips the reason after 300 characters, where the code clips bytes.
- GlobalIds.Store.EnsureIdentity: the names, groups and last-seen time that the upsert refreshes.
- GlobalIds.Store.EnsureServiceIdentity: the same columns.
- GlobalIds.Store.MapGlobalIDs: the tenant and metadata each request carries into its row.
- Administrators.Directory.UpdateAccount: an invalid e-mail address is refused before it is called.
- Labels.Histogram.Observe: one series of the vector, in reals.
- Labels.CounterVec.Add: counts in reals, so it says nothing about float addition.
- RateLimits.Limiter.Sweep: "no stalest found yet" is its own case, where the code uses a zero time; a
  bucket last seen at the zero time is not covered.
- RateLimits.Limiter.Allow: the wait is exact in reals, where the code truncates it to nanoseconds.
- Retry.Client.Do: the breaker's clock is read at two given moments, and the sleep itself is not
  modelled.
- AllocationGuarantees.AnswersNeverChange: speaks of the modelled writers only; a writer outside them
  that overwrites an identity row is not part of this model.
- SearchPaging.FollowingTheCursor: relative to the provider's own candidates, which leave out
  documents readable only through a scope grant.
- AdministratorRuns.AnAdministratorRemains: a write the directory applies after the lock is gone, because
  its caller gave up or the database session holding the lock was lost, is not covered.
