# Verified model of a mail platform's core

A Dafny model of the parts of the platform whose correctness spans many calls, replicas or workers, with
proofs about every input and every run.

- **Outbound queue** (`OutboundQueue`, `QueueRuns`, `QueueLife`). The queue is a class over a map of rows, one
  method a statement. `QueueRuns` lets any number of workers, holds, releases, enqueues and purges interleave
  statement by statement, with `MarkFailed` as two statements, and proves ownership, exact attempt counts,
  conservation and back-off over every run; `QueueLife` follows one message from its INSERT to its end.
- **Abuse ladder** (`AbuseLadder`, `LadderRuns`, `LadderTable`). Mark store, mailbox gate and queue as three
  objects that `Apply` and `ReleaseManual` move together; runs mix scans, operator releases, clock ticks and queue work.
  `LadderTable` says what one step does in a table, and how long a mark lasts.
- **Rate limiter and send gate** (`RateLimit`, `RateLimitLaws`, `RateLimitCaps`, `SendGate`, `GatePolicy`,
  `GateMeters`, `GateSteps`, `GateCounts`, `GateRuns`). Time is in nanoseconds, buckets and Unix seconds are computed as in the source, and a period that is not positive
  truncates to the instant itself. The lazily expiring store refines totals that never forget; the caps are
  proved on the ledger of admissions. `GatePolicy` says who is let through and under which limits, `GateCounts`
  what each window has counted; `GateRuns` puts gate and ladder on one platform.
- **Signer pool** (`SignerPool`), **served domains** (`DomainRegistry`, `DomainLife`) and **quota reconciler**
  (`Reconciler`): small protocols, each as the object that runs it and as a system of steps.
- **Bytes** (`Text`, `CanonicalForm`, `CanonicalLaws`, `Base64Wire`, `Base64Laws`, `ProtectedHeaders`): what is
  signed is what is verified, what is encoded is what is decoded, what is wrapped is what is parsed. The body
  canonicalisation that signer, verifier and transport each carry is the same text three times and is one method here; their header parts
  differ and are three methods.
- **Client-mode recipients** (`ClientRecipients`): what the checks on an end-to-end send amount to.

Methods follow the source's loops and branches and are proved against functions on values; lemmas then say
what these functions, or the runs built from them, guarantee.

## Findings

Where the source does not keep a promise in all cases, a lemma gives the case and another says exactly when
the promise holds.

- An unreadable mark is taken for no mark. That breaks the agreement of the three stores exactly when the
  account is held and a warning or a throttle is warranted (`LadderRuns.UnreadableMarkAgrees`, and for whole
  runs `LadderRuns.AccountAgrees` and `LadderRuns.StoresAgree`), and the reported rung exactly when nothing is warranted while a mark stands
  (`LadderRuns.ReportedRung`). It also ends a suspend without the operator, exactly when what is applied is
  neither nothing nor a suspend (`LadderRuns.SuspendStep`): a hold put there unread opens the gate after its
  minimum duration (`LadderRuns.SuspendSlips`). A hold put unread over a hold starts it anew, so that it is
  lifted later (`LadderRuns.UnreadHoldRestarts`); exactly which steps keep the instant a hold began is in
  `LadderRuns.BeginningStep`, and which keep the hold at all in `LadderRuns.HeldSinceStep`.
- A message whose worker stops, or whose mark does not reach the database, stays processing for ever: no
  statement takes it up again (`QueueRuns.LostForEver`). Every other processing message can still get out
  (`QueueRuns.LeavesUnlessLost`), and which messages can still be delivered at all is exactly stated in
  `QueueLife.CanStillBeSent`. A worker that stops between the final UPDATE and the callback loses the
  bounce (`QueueRuns.CallbackOnce`).
- `Allow` names its buckets before the store reads its clock. If the bucket ends in between, a count may
  already be forgotten (`RateLimitLaws.LateReadAdmitsMore`). The decision is the same as over totals that
  never forget exactly when the refusing check, if any, is too large by itself or still in the store
  (`RateLimitLaws.SameDecisionExactlyWhen`, and for runs `RateLimitLaws.ForgettingExactlyWhen`).
- After an admin request over a row that nobody changed in between, the serving replica equals the table
  exactly when the handler reloads or the replica was equal before (`DomainRegistry.HandlerCoherence`).
  Handlers load a row and write it back whole, so two that overlap on one row can leave a replica wrong with
  no signal pending (`DomainRegistry.OverlapBreaksCoherence`), and so can one whose reload or broadcast fails
  after its write (`DomainRegistry.StopBreaksCoherence`). Which steps do that is exactly stated in
  `DomainRegistry.CoherentExactlyWhen`, and `DomainRegistry.ReplicasConverge` says it for runs.
- Equal canonical bytes mean equal signed values as long as these are one line each
  (`CanonicalLaws.HeadersDecide`); a line feed inside a value can be taken for the end of its line, and then the
  bytes of different values can be equal (`CanonicalLaws.BreakConfuses`).
- U+2028 and U+2029 in a subject end a line for the pattern that reads it back, so the subject is lost exactly
  when it holds one (`ProtectedHeaders.ParseUndoesWrap`).
- Two entries of the recipient keys that normalise to one address leave it to the iteration order which one
  each check sees, and with different keys the checks can accept what a recipient cannot open
  (`ClientRecipients.ClashSplitsTheChecks`). The promise holds for a table exactly when no mailbox has two
  such entries (`ClientRecipients.ReadableExactlyWhen`).

## Model

| member | source | states |
|---|---|---|
| OutboundQueue.RetryDelay | internal/transport/queue.go:390-401 | The delay after failed attempt k is entry k of the list, the last one beyond its end, and a minute for no attempt or no list |
| OutboundQueue.Queue.Enqueue | internal/transport/queue.go:169-212 | One pending row, due at once, with the default limit when none is given; a taken id changes nothing |
| OutboundQueue.Queue.Dequeue | internal/transport/queue.go:215-278 | For every legal answer of the locking SELECT, whatever rows other transactions have locked, exactly the picked rows become processing, and they are what is returned |
| OutboundQueue.Queue.MarkSent | internal/transport/queue.go:281-295 | The row becomes sent with one more attempt; nothing else changes |
| OutboundQueue.Queue.MarkFailed | internal/transport/queue.go:298-387 | Retry with backoff or final failure, and one bounce exactly when the failure is final |
| OutboundQueue.Queue.HoldForSender | internal/transport/queue.go:512-526 | Parks every pending or retry row of the sender and counts the rows it changed |
| OutboundQueue.Queue.ReleaseForSender | internal/transport/queue.go:530-544 | Frees every held row of the sender, due at once, and counts the rows it changed |
| OutboundQueue.Queue.PurgeOld | internal/transport/queue.go:452-467 | Deletes exactly the sent and failed rows older than the cutoff and counts them |
| OutboundQueue.Queue.DrainBatch | internal/transport/queue.go:570-582 | The worker's loop over a batch, against a recursive description of a pass: rows and callbacks, in order |
| QueueRuns.OwnershipStep | internal/transport/queue.go:215-278 | Every statement of any number of workers keeps: a message is processing exactly while one worker has it or it was lost, and what a worker read of its front message is still what the row says |
| QueueRuns.OwnershipAlways | internal/transport/queue.go:553-585 | The same over every run, from any state that has it |
| QueueRuns.SplitFailureIsAtomic | internal/transport/queue.go:298-351 | MarkFailed's separate SELECT and UPDATE write what one atomic statement would: no attempt is ever lost |
| QueueRuns.MovedByStep | internal/transport/queue.go:169-544 | A row changes only along the legal moves of its status, appears only by Enqueue and disappears only by a purge of a final row |
| QueueRuns.LedgerStep | internal/transport/queue.go:281-351 | Attempts equal the initial value plus the marks that reached the database and stay within the limit (at least one); a message has one mark as delivered if it is sent and otherwise none; a failed one had its last attempt |
| QueueRuns.ConservedStep | internal/transport/queue.go:169-467 | Accepted = present + purged, deliveries = sent + purged sent, final failures = failed + purged failed |
| QueueRuns.CalledStep | internal/transport/queue.go:348-384 | Every statement keeps, with a worker free to stop between the final UPDATE and the callback: exactly the failed messages have a call, and each has one, made, due or missed |
| QueueRuns.CallbackOnce | internal/transport/queue.go:353-384 | In every run a message that has not failed is never called back, and a failed one exactly once unless its worker is still about to or stopped just before; none is called back twice |
| QueueRuns.BackoffStep | internal/transport/queue.go:310-348 | For rows never held: tries do not overlap, and each one after the first starts a full retry delay after the failure before it |
| QueueRuns.InvReachable | internal/transport/queue.go:553-585 | All five invariants in every state reachable from the start |
| QueueRuns.RowLife | internal/transport/queue.go:281-387 | Along any run the envelope, limit and creation time of a message never change, attempts never fall, sent and failed are absorbing, and only a purge removes a message |
| QueueRuns.NewcomersAreYounger | internal/transport/queue.go:169-212 | A row that turns up under a known id is a later message, never an old one come back |
| QueueRuns.HeldUntilReleased | internal/transport/queue.go:512-544 | A held message stays exactly as it is in every run without a release of its own sender |
| QueueRuns.HoldThenRelease | internal/transport/queue.go:508-544 | Hold, any run without that release, release: the message is as before, pending and due at once |
| QueueRuns.LostForEver | internal/transport/queue.go:570-582 | Finding: a message whose worker stopped, or whose mark failed, stays processing for ever |
| QueueRuns.LeavesUnlessLost | internal/transport/queue.go:553-585 | Exactly when: a processing message can still get out of that state if and only if it was not lost |
| QueueRuns.NothingVanishes | internal/transport/queue.go:169-467 | In every run from the start: enqueued = live + sent + failed + purged, and final failures = failed + purged failed |
| QueueRuns.TriesSpread | internal/transport/queue.go:390-401 | The k-th try starts at least the sum of the delays before it after the first |
| QueueRuns.FailedOnlyAfterBackoff | internal/transport/queue.go:310-348 | A message never held that failed for good has used up its attempts, over at least the sum of all delays between them |
| QueueRuns.DefaultBackoff | internal/transport/queue.go:121-134 | With the default configuration that sum is 81 minutes |
| QueueRuns.UndisturbedPass | internal/transport/queue.go:570-582 | The batch loop of one worker is a run of its own steps with the same effect on rows and callbacks |
| QueueLife.AcceptedRow | internal/transport/queue.go:169-212 | An accepted row holds the message's envelope, attempts and limit, or the queue's limit if and only if it gives none, and is pending and due at once; no other row changes |
| QueueLife.BatchIsFull | internal/transport/queue.go:215-240 | A dequeue takes as many of the due unlocked rows as its limit, or without one the configured batch, allows, the earliest due ones, and takes nothing else |
| QueueLife.HeldExactly | internal/transport/queue.go:508-526 | A row changes under a hold if and only if it carries that sender's key in its metadata and is pending or retry; it is then held and otherwise as it was |
| QueueLife.ReleasedExactly | internal/transport/queue.go:528-544 | A row changes under a release if and only if it is that sender's and held; it is then pending and due at once |
| QueueLife.PurgedExactly | internal/transport/queue.go:452-467 | A row goes if and only if it is sent or failed and was created before the cutoff; the others stay as they are |
| QueueLife.FromEndToEnd | internal/transport/queue.go:169-351 | From its INSERT on, through every run: a message keeps its envelope, one still alive has tries left, a sent one used no more than its limit, and a failed one exactly all of them, given with the message or by the configuration |
| QueueLife.CallbackTells | internal/transport/queue.go:353-384 | In every run from the start the callback is given the envelope, all the attempts and the last error of a message that failed for good |
| QueueLife.DoomedForEver | internal/transport/queue.go:298-351 | A message that has failed, was lost, or whose last failure is about to be written stays so in every run |
| QueueLife.CanStillBeSent | internal/transport/queue.go:553-585 | Exactly when: in any state reachable from the start that has a worker, some run still sends the message if and only if it is none of these |
| AbuseLadder.MemoryMarkStore.Get | internal/abuse/marks.go:122-134 | The mark that stands: set, and not past its expiry |
| AbuseLadder.MemoryMarkStore.Set | internal/abuse/marks.go:136-146 | Replaces the mark; it expires only if the time to live is positive |
| AbuseLadder.MemoryMarkStore.Clear | internal/abuse/marks.go:148-154 | Removes the mark and nothing else |
| AbuseLadder.MemoryMarkStore.Throttled | internal/abuse/marks.go:157-163 | True exactly when a mark of rung throttle or above stands |
| AbuseLadder.Ladder.Apply | internal/abuse/ladder_apply.go:78-116 | What becomes of mark, gate, queue rows and reported rung, for every mark, judgement, policy and time, the unreadable mark included |
| AbuseLadder.Ladder.Renew | internal/abuse/ladder_apply.go:123-133 | Keeps the instant the mark was made; an empty reason keeps the old one |
| AbuseLadder.Ladder.Escalate | internal/abuse/ladder_apply.go:136-172 | Closes the gate and parks mail from hold upwards, then marks |
| AbuseLadder.Ladder.Deescalate | internal/abuse/ladder_apply.go:175-219 | Suspend stays; a hold is lifted only where the policy allows and it is old enough; lower marks are replaced or cleared |
| AbuseLadder.Ladder.Release | internal/abuse/ladder_apply.go:222-239 | Opens the gate and frees the parked mail |
| AbuseLadder.Ladder.ReleaseManual | internal/abuse/ladder_apply.go:258-268 | The same for any mark, which is then cleared |
| LadderRuns.AgreesStep | internal/abuse/ladder_apply.go:78-268 | One step keeps, for one account: gate closed exactly while marked hold or worse, parked mail only under such a mark, if and only if it is not an unread Apply of a warning or throttle to that account while held, whatever it does to others |
| LadderRuns.AccountAgrees | internal/abuse/ladder_apply.go:78-268 | In every run the stores agree about an account throughout if and only if no step is such an Apply to it, whatever happens to the marks of others |
| LadderRuns.AllAgreeStep | internal/abuse/ladder_apply.go:78-268 | The same over all accounts at once; a readable Apply reports the rung then standing |
| LadderRuns.StoresAgree | internal/abuse/ladder_apply.go:78-268 | In every run of scans, operator releases, clock ticks and queue work the stores agree about everybody throughout if and only if no step is such an Apply |
| LadderRuns.CleanAgrees | internal/abuse/ladder_apply.go:71-73 | A platform without marks and with open gates starts out so |
| LadderRuns.UnreadableMarkAgrees | internal/abuse/ladder_apply.go:79-87 | Finding, exactly located: after an unreadable mark the stores disagree if and only if the account was held and a warning or a throttle was warranted |
| LadderRuns.ReportedRung | internal/abuse/ladder_apply.go:78-116 | The reported rung is the one then standing if and only if no standing mark was unreadable while nothing was warranted |
| LadderRuns.HeldSinceStep | internal/abuse/ladder_apply.go:78-194 | One step ends a hold or suspend if and only if it is the operator's, overwrites the mark unread by a warning or throttle, or lifts a hold that is due |
| LadderRuns.BeginningStep | internal/abuse/ladder_apply.go:118-161 | A hold is still there after one step with the instant it began if and only if the step is not the operator's, not a lift that is due, not a suspend, and no Apply that re-applies a rung over the unread mark (other than the hold in that very instant) |
| LadderRuns.BeginningLasts | internal/abuse/ladder_apply.go:118-133 | Throughout a run a hold keeps the instant it began if and only if every step does |
| LadderRuns.RenewalKeepsBeginning | internal/abuse/ladder_apply.go:118-133 | Renewing a hold does not move its beginning, nor does anything about other accounts or the queue |
| LadderRuns.UnreadHoldRestarts | internal/abuse/ladder_apply.go:79-87 | Finding: an Apply that warrants the hold but cannot read the mark starts the hold anew |
| LadderRuns.ParkedStep | internal/abuse/ladder_apply.go:136-157 | No step touches parked mail of an account that stays held |
| LadderRuns.HoldLasts | internal/abuse/ladder_apply.go:175-194 | However many renewals come between, and unreadable marks too unless they overwrite the hold by a warning or throttle, no hold is lifted automatically before its minimum duration, nor any parked message touched |
| LadderRuns.HoldFallsExactlyWhen | internal/abuse/ladder_apply.go:182-194 | One Apply lifts a hold if and only if less is warranted, the policy lifts holds and the hold is old enough; the gate is then open |
| LadderRuns.SuspendStep | internal/abuse/ladder_apply.go:78-116 | One step ends a suspend if and only if it is the operator's or an Apply that cannot read the mark and puts a lower one there |
| LadderRuns.SuspendLasts | internal/abuse/ladder_apply.go:176-180 | A suspend outlives every run without such a step |
| LadderRuns.SuspendSlips | internal/abuse/ladder_apply.go:79-87 | Finding: an unread hold replaces a suspend, and later opens the gate without the operator |
| LadderRuns.NoAutoSuspend | internal/abuse/ladder_apply.go:89-98 | With automatic suspension off no run suspends an account that was not, unreadable marks included and whoever else is suspended |
| LadderTable.ReportedByTable | internal/abuse/ladder_apply.go:78-116 | The reported rung, for every mark, judgement, policy and instant: up at once; down from warn and throttle at once, from a hold only where the policy lifts it and it is old enough, from a suspend never; no suspend unless the policy allows it |
| LadderTable.MarkedByTable | internal/abuse/ladder_apply.go:118-219 | The mark on record afterwards: made afresh on the way up with the new reason and on the way down with the old one, renewed with its instant where the rung is the same, gone at rung none; other accounts keep theirs |
| LadderTable.GatedByTable | internal/abuse/ladder_apply.go:136-239 | The gate closes, with the instant, exactly when the account rises to hold or above, opens exactly when it falls below, and is left alone otherwise |
| LadderTable.ReleasedByOperator | internal/abuse/ladder_apply.go:258-268 | Afterwards there is no mark, the gate is open and no mail of the account is parked |
| LadderTable.ApplyIsAStep | internal/abuse/ladder_apply.go:78-116 | What the objects' Apply does is the step of the runs, on marks, gates and rows |
| LadderTable.MarkExpires | internal/abuse/marks.go:122-146 | A warning or a throttle put on at an instant stands, through every run without another Apply or release of the account, exactly until the policy's warn or throttle time is over, for ever if that is not positive; then the account is on no rung |
| RateLimit.MemoryStore.IncrBy | internal/ratelimit/store.go:79-90 | Adds to the unexpired count or starts a new one; an existing expiry is not moved |
| RateLimit.MemoryStore.PeekAll | internal/ratelimit/store.go:92-103 | The unexpired count of each key, absent read as zero |
| RateLimit.Limiter.Allow | internal/ratelimit/ratelimit.go:91-154 | The decision of the first window that refuses, in order; an admission counts in every window that is on, a denial in none |
| RateLimit.Limiter.Consume | internal/ratelimit/ratelimit.go:146-151 | The increments of an admission, one after the other on a moving clock |
| RateLimitLaws.KeyIsTimely | internal/ratelimit/ratelimit.go:67-70 | A key names the bucket that contains the instant, for periods of whole seconds |
| RateLimitLaws.MirrorsIncrement | internal/ratelimit/store.go:79-90 | An increment keeps lazily expiring counters equal to totals that never forget, on every bucket still open |
| RateLimitLaws.SameDecision | internal/ratelimit/ratelimit.go:136-144 | One Allow that reads before its buckets end decides alike on both |
| RateLimitLaws.ForgettingIsInvisible | internal/ratelimit/ratelimit.go:91-154 | So does every sequence of such calls, with throttle, elevation and new-account limits switching between them |
| RateLimitLaws.SameDecisionExactlyWhen | internal/ratelimit/ratelimit.go:136-144 | However late the store reads its clock, one Allow decides as over totals that never forget if and only if it is oversize, nothing is to be refused, or the refusing check adds too much alone or its entry has not expired |
| RateLimitLaws.ForgettingExactlyWhen | internal/ratelimit/ratelimit.go:91-154 | So for every sequence of calls: the decisions are the same if and only if every refusal is seen in that sense |
| RateLimitLaws.LateReadAdmitsMore | internal/ratelimit/ratelimit.go:101-136 | Finding: a key computed in one bucket and read after the next began can admit what the totals refuse |
| RateLimitCaps.TotalsAreCounts | internal/ratelimit/ratelimit.go:146-151 | Counters are the sums of what was admitted |
| RateLimitCaps.AdmittedIsLawful | internal/ratelimit/ratelimit.go:122-153 | Every admission leaves each window that is on at or below the max then in force |
| RateLimitCaps.BucketCap | internal/ratelimit/ratelimit.go:140-144 | A bucket never counts more than the largest max it was asked under |
| RateLimitCaps.TwiceTheMax | internal/ratelimit/ratelimit.go:67-75 | With one max, any half-open interval a period long admits at most twice that max |
| RateLimitCaps.RetryAfterIsEnough | internal/ratelimit/ratelimit.go:72-75 | RetryAfter is in (0, period] and leads to a bucket whose count is 0: the window then refuses the same send if and only if the add alone is over the max |
| RateLimitCaps.OvershootBound | internal/ratelimit/ratelimit.go:124-151 | K callers that interleave reads and increments commit a bucket to at most max + (K - 1) times the largest add |
| SendGate.Gate.Check | internal/email/sendgate.go:88-158 | The order of denials, the limits that apply, and the counters afterwards; a refusal changes none |
| SendGate.ScreenedFits | internal/ratelimit/limits.go:78-109 | Throttled, elevated and new-account limits keep the period of every window that is on, and the domain limits |
| SendGate.KeptAlways | internal/email/sendgate.go:88-158 | Over every run of checks that each read their counters before their buckets end, the counters mirror a lawful ledger of what was permitted |
| SendGate.SharedCounts | internal/ratelimit/ratelimit.go:112-120 | A domain-wide bucket counts each permitted send once, with recipients counted as at least one |
| SendGate.WithinAlways | internal/email/sendgate.go:120-158 | Over every run of checks, however late they read, the counters mirror what was permitted and no domain-wide bucket still open is over its max |
| SendGate.DomainConserved | internal/email/sendgate.go:120-158 | After any run over any accounts, however late each check reads its counters, a domain-wide counter still open is the sum of what was permitted in it, elevated accounts included, and within the max |
| GatePolicy.RefusedExactlyWhen | internal/email/sendgate.go:88-141 | Each categorical denial if and only if its lookup says so and none before it did; the limiter is asked if and only if the tier is named or paid, the gate open, and the age known where it matters |
| GatePolicy.EntitledStep | internal/email/sendgate.go:120-158 | A call leaves a new permit if and only if it is permitted; its tier is then named or paid and its gate open, it met no account windows if paid or elevated and not throttled, 1 a minute, 10 an hour, 50 a day and 5 a message if throttled, 20 recipients a day if young, the configured ones otherwise, and it is within the caps on recipients and size; a refused call changes nothing |
| GatePolicy.PermitsAreEntitled | internal/email/sendgate.go:88-158 | Over every run, every new permit was given to a call entitled to it in this sense |
| GatePolicy.DecidedExactly | internal/ratelimit/ratelimit.go:91-144 | Admitted if and only if recipients and size are within their caps and no window refuses; a denial names the recipient cap, else the size, else the first window that refuses |
| GateMeters.MeterIsAsked | internal/ratelimit/ratelimit.go:107-120 | Each window is asked with its own key, limit, weight and reason: one key family for each account, one for the domain, one for its young accounts |
| GateCounts.MetersConserved | internal/ratelimit/ratelimit.go:101-151 | After any run, however late its checks read, each window of each account and of the domain has counted, in a bucket still open, exactly the permits that belong there, those of that account alone or of all, one for a message and its recipients but at least one, within its cap |
| GateCounts.DefaultCaps | internal/ratelimit/limits.go:56-73 | With the default limits these caps are 5 a minute, 100 an hour, 500 and 1000 recipients a day for an account, and 300 a minute, 5000 recipients an hour and 200 recipients a day of young accounts for the domain |
| GateCounts.DeniedIsSpent | internal/ratelimit/ratelimit.go:136-144 | A denial by a window is earned by the permits in it, of that account alone if it is an account's, and the send itself: together they are over the max it met |
| GateCounts.PermittedFits | internal/ratelimit/ratelimit.go:136-151 | The converse: a permitted call that read its counters in time fits, with what was permitted before, into every window it met |
| GateRuns.ClosedIsRefused | internal/email/sendgate.go:96-103 | While the ladder's gate of an account is closed no check of it is permitted, and none changes a counter |
| GateRuns.ThrottleBites | internal/email/sendgate.go:105-127 | A permit of an account marked throttle or above, its mark read, met the throttled caps |
| GateRuns.HoldSilences | internal/abuse/ladder_apply.go:136-194 | Over every run of scans, queue work and sends: from a hold on nothing of the account is permitted until the minimum duration is over, and never where holds are not lifted, unless the operator releases it or a scan overwrites its mark unread |
| GateRuns.SuspendSilences | internal/abuse/ladder_apply.go:136-180 | From a suspend on nothing of the account is permitted for good, unless the operator or an unread mark ends it |
| SignerPool.NewLimiter | ui/src/lib/signer-pool.ts:15-18 | A cap below one is refused; otherwise no slot is taken |
| SignerPool.Limiter.Enter | ui/src/lib/signer-pool.ts:20-26 | Takes a slot or joins the end of the queue |
| SignerPool.Limiter.Leave | ui/src/lib/signer-pool.ts:33-35 | Hands the slot to the first waiter or frees it |
| SignerPool.SoundStep | ui/src/lib/signer-pool.ts:19-37 | Every event keeps: slots taken = running + woken, at most the cap; waiters only while all slots are taken; waiters leave in order |
| SignerPool.CapAndOrder | ui/src/lib/signer-pool.ts:15-37 | In every interleaving the cap holds and waiters run in arrival order; when all is done no slot is taken |
| SignerPool.NeverStuck | ui/src/lib/signer-pool.ts:27-36 | While work remains some call can resume or finish |
| SignerPool.AllFinish | ui/src/lib/signer-pool.ts:27-36 | Once arrivals end, every schedule has the same length and finishes every call |
| DomainRegistry.Registry.Reload | internal/domains/registry.go:70-115 | Whatever order the rows come in, signers and served set become the ones the table determines |
| DomainRegistry.InternalDomainHandler.PublishReload | internal/domains/registry.go:125-135 | This replica is in step with the table and one signal goes out |
| DomainRegistry.InternalDomainHandler.CreateDomain | internal/api/internal_domains.go:141-199 | Outcome, row written and no reload |
| DomainRegistry.InternalDomainHandler.VerifyDomain | internal/api/internal_domains.go:202-238 | Outcome, row written, and a reload exactly for an active domain that becomes verified |
| DomainRegistry.InternalDomainHandler.ChangeActive | internal/api/internal_domains.go:250-269 | Only a verified domain is activated; every change reloads |
| DomainRegistry.InternalDomainHandler.DeleteDomain | internal/api/internal_domains.go:274-288 | The row is gone and the replica reloaded |
| DomainRegistry.InternalDomainHandler.RotateDKIM | internal/api/internal_domains.go:294-330 | A new key under a new selector, unverified, and a reload exactly for an active domain |
| DomainRegistry.SignersAreConfirmed | internal/domains/registry.go:85-102 | However requests overlap, every selector and key that any replica ever signs with was seen in DNS for that very domain |
| DomainRegistry.HandlerCoherence | internal/api/internal_domains.go:141-330 | A handler that runs to its end over a row nobody changed under it keeps every replica in step or with a signal pending, although three paths skip the reload; the serving replica ends in step if and only if the handler reloads or it was in step before |
| DomainRegistry.MatchesExactlyWhen | internal/domains/registry.go:70-115 | A replica equals the table if and only if no name is stale on it: none that a reload would give another signer, a new one or none, and none that it would take up or give up |
| DomainRegistry.CoherentExactlyWhen | internal/api/internal_domains.go:141-330 | However requests overlap, and wherever a handler stops between its write, its reload and its broadcast, a step keeps the replicas coherent if and only if it is harmless: not a commit without reload over a row active by now that a replica without a signal can tell, nor the stop of the last handler to broadcast while a name is stale on a replica without a signal |
| DomainRegistry.UndisturbedIsHarmless | internal/api/internal_domains.go:141-330 | A commit whose row nobody changed under it is harmless |
| DomainRegistry.ReplicasConverge | internal/domains/registry.go:117-164 | In every run the replicas stay coherent throughout if and only if every step is harmless, and then all equal the table once nobody is about to broadcast and no signal is pending |
| DomainRegistry.OverlapBreaksCoherence | internal/api/internal_domains.go:294-330 | Finding: a rotation that overlaps an activation leaves a replica serving a domain that is inactive, with no signal pending |
| DomainRegistry.StopBreaksCoherence | internal/api/internal_domains.go:259-268 | Finding: an activation whose reload fails leaves a replica not serving a domain that is active, with no signal pending |
| DomainLife.Reloads | internal/domains/registry.go:70-115 | After a reload, whatever the order of the rows, the replica signs for exactly the active verified domains with a key that makes a signer, each under its selector and key, and serves exactly the active ones, or the built-in one where there is none |
| DomainLife.AllInStep | internal/domains/registry.go:117-164 | After every run of harmless steps that ends quiet all replicas do so |
| DomainLife.OutcomeWritten | internal/api/internal_domains.go:141-330 | A request changes at most the row it names |
| DomainLife.Created | internal/api/internal_domains.go:141-199 | A create needs a dotted name that is free and a key that makes a signer or can be generated; the row starts neither verified nor active |
| DomainLife.Verified | internal/api/internal_domains.go:202-238 | A row becomes verified if and only if its key is usable and the record is published; nothing else changes |
| DomainLife.ActiveChanged | internal/api/internal_domains.go:250-269 | Only a verified domain is activated, any can be deactivated, and nothing else changes |
| DomainLife.Deleted | internal/api/internal_domains.go:274-288 | A delete removes the row |
| DomainLife.Rotated | internal/api/internal_domains.go:294-330 | A rotation takes a selector that is new up to case and leaves the new key unverified and the domain as active as it was |
| DomainLife.RowByCommits | internal/api/internal_domains.go:141-330 | In every run in which nobody overtakes a request on this domain, its row is what these requests, one after the other, make of it, whatever happens to others |
| DomainLife.ComesToLife | internal/api/internal_domains.go:141-269 | Created, verified while published and activated, a domain is served and signed for with its selector and key by every replica once a harmless run is quiet |
| DomainLife.PassesAway | internal/api/internal_domains.go:250-288 | After a delete or a deactivation no replica signs for it, and none serves it unless it is the built-in one and no other is active |
| Reconciler.Reconciler.Reconcile | internal/usage/reconciler.go:74-121 | The loop, against a recursive pass over any order of the mailboxes and any failing writes |
| Reconciler.Reconciler.Union | internal/usage/reconciler.go:87-93 | Every mailbox measured or on record, with zero where nothing was measured |
| Reconciler.WholeWalk | internal/usage/reconciler.go:95-120 | A pass sets each mailbox to its measured value unless its write failed, NetBytes is the change of the recorded total, Corrected the number of wrong mailboxes written |
| Reconciler.DriftLeft | internal/usage/reconciler.go:103-109 | What is still wrong afterwards is exactly what was wrong and failed |
| Reconciler.SecondPassIdle | internal/usage/reconciler.go:95-120 | After a pass without failures a second one over unchanged mail, in any order and with any failures, has nothing corrected, no net bytes and an unchanged record |
| CanonicalForm.CanonicalizeBody | internal/email/signing.go:168-185 | The in-place line edits and the shrinking loop, against the canonical form |
| CanonicalForm.Canonicalizer.SelectHeadersToSign | internal/email/signing.go:100-121 | The signable names present, sorted |
| CanonicalForm.Canonicalizer.Sign | internal/email/signing.go:74-165 | The signer's canonical bytes and signed-headers field |
| CanonicalForm.Canonicalizer.Rebuild | internal/email/verify.go:94-236 | The verifier's bytes from the field and the received headers, whatever order their keys are lower-cased in; none for an empty field |
| CanonicalForm.Canonicalizer.SignEmail | internal/transport/smtp.go:712-794 | The transport's own copy of the signer |
| CanonicalForm.BodyLinesCanonical | internal/email/signing.go:174-182 | Canonical lines have no line break, no trailing blanks, and do not end in a blank line |
| CanonicalForm.CanonicalBodyTwice | internal/email/signing.go:168-185 | canonicalizeBody is idempotent |
| CanonicalForm.SameFormSameLines | internal/email/signing.go:168-185 | Two bodies have the same canonical form if and only if their trimmed, tail-stripped lines are equal |
| CanonicalForm.VerifierRebuilds | internal/email/verify.go:175-216 | Signer and verifier compute the same bytes for every message with a signable header, however names are spelled and whatever order the received map is walked in, if every spelling of a signed header carries the signed value up to outer white space and the bodies have the same canonical lines; the field is empty if and only if there is no signable header |
| CanonicalForm.TransportAgrees | internal/transport/smtp.go:734-757 | The transport, which sorts once, signs the same bytes |
| CanonicalLaws.BodyDecides | internal/email/signing.go:155-164 | Under one header block two bodies have the same canonical bytes if and only if their canonical forms have the same hash |
| CanonicalLaws.HeadersDecide | internal/email/signing.go:139-164 | Under one list of signed names, with values on one line and hashes of one length, two messages have the same bytes if and only if every signed value agrees up to outer white space and the body hashes agree |
| CanonicalLaws.BreakConfuses | internal/email/signing.go:141-153 | Finding: with a line feed inside a value two messages with different values of a signed header have the same bytes |
| CanonicalLaws.NamesToSign | internal/email/signing.go:30-45 | Signed are exactly those present of from, to, date, message-id, subject, cc, in-reply-to and references |
| CanonicalLaws.OrderToSign | internal/email/signing.go:118-137 | Each is signed once, in the order of their first letters, in which no two agree |
| CanonicalLaws.CleanIsCanonical | internal/email/signing.go:168-185 | A text without carriage return, without blank or tab at the end of a line and without a blank last line is its own canonical form |
| CanonicalLaws.CanonicalIsClean | internal/email/signing.go:168-185 | Every canonical form is such a text |
| CanonicalLaws.BreaksAlike | internal/email/signing.go:170-171 | A line break may be written as CRLF, CR or LF |
| CanonicalLaws.BlanksIgnored | internal/email/signing.go:174-177 | A blank or tab more at the end of any line makes no difference |
| CanonicalLaws.BlankLineIgnored | internal/email/signing.go:179-182 | Nor does a blank line more at the end |
| Text.TrimSpaceSplits | internal/email/signing.go:144 | Trimming takes white space off both ends, all of it and nothing else |
| Base64Wire.WrappedBase64 | internal/transport/smtp.go:480-490 | The wrapping loop, against a recursive description of the lines |
| Base64Wire.WriteAttachmentBody | internal/transport/smtp.go:552-560 | The indexed loop, against the variant that ends every line |
| Base64Wire.RawRoundTrip | internal/email/inbound.go:486-489 | Decoding undoes encoding without padding, for every byte string (section 4 of RFC 4648) |
| Base64Wire.StrictRoundTrip | internal/email/inbound.go:486-487 | Well-padded text is decoded by the first of the two variants |
| Base64Wire.LenientRoundTrip | internal/email/inbound.go:477-494 | White space anywhere and any number of trailing equals signs do not matter |
| Base64Wire.WireRoundTrip | internal/email/inbound.go:477-494 | The inbound decoder returns every byte string that either wrapper put on the wire |
| Base64Wire.LinesAreShort | internal/transport/smtp.go:477-490 | No emitted line is longer than 76 characters (section 6.8 of RFC 2045) |
| Base64Wire.LinesAreFull | internal/transport/smtp.go:480-490 | Every line but the last has 76 characters and CRLF after it; the attachment's form ends the last line so, too |
| Base64Laws.Alphabet | internal/transport/smtp.go:481 | The characters of the values 0 to 63 are those of table 1 of RFC 4648, in order |
| Base64Laws.GroupIsNumber | internal/transport/smtp.go:481 | The characters of a group, read to base 64, are its bytes, read to base 256, filled up with zero bits (section 4 of RFC 4648) |
| Base64Laws.GroupByGroup | internal/transport/smtp.go:481 | The encoding goes group by group of three bytes |
| ProtectedHeaders.ParseProtectedHeaders | ui/src/lib/protected-headers.ts:38-52 | The loop over header lines, against the last line that matches |
| ProtectedHeaders.LastWins | ui/src/lib/protected-headers.ts:46-50 | The last subject line wins, and only without one is there no subject |
| ProtectedHeaders.FoldRun | ui/src/lib/protected-headers.ts:28-29 | Folding turns each run of line breaks into one space and leaves other text alone |
| ProtectedHeaders.ParseUndoesWrap | ui/src/lib/protected-headers.ts:27-52 | For every subject and body: the body comes back with single line feeds, the subject folded, or no subject if and only if it holds U+2028 or U+2029 |
| ProtectedHeaders.LosslessExactlyWhen | ui/src/lib/protected-headers.ts:27-52 | Subject and body come back unchanged if and only if the subject is one line and the body has no CRLF |
| ProtectedHeaders.UnmarkedIsUntouched | ui/src/lib/protected-headers.ts:39-42 | A text comes back unchanged with no subject if and only if its first line is not the marker, however that line ends |
| ProtectedHeaders.BlockFormat | ui/src/lib/protected-headers.ts:24-31 | The text that is written, for a subject of one line, in full |
| ProtectedHeaders.SubjectExactly | ui/src/lib/protected-headers.ts:47-48 | A line gives a value if and only if it is the field name in any case, one space or none, and that value without a line terminator; none only where the value does not begin with a space |
| ProtectedHeaders.ReadAtBlankLine | ui/src/lib/protected-headers.ts:43-51 | A marked text is read as the header block before its first blank line and the body after it |
| ProtectedHeaders.ReadToTheEnd | ui/src/lib/protected-headers.ts:43-51 | Without a blank line it is all header block and the body is empty |
| ClientRecipients.CheckClientRecipientsCovered | internal/email/service.go:1091-1143 | Duplicates, key table, body and attachment holders and the missing list, for every order in which the entries are visited |
| ClientRecipients.CheckClientKeysMatchResolved | internal/email/service.go:1167-1186 | The list of To and CC addresses whose claimed key is not the resolved one |
| ClientRecipients.AcceptedExactlyWhen | internal/email/service.go:1091-1186 | Where the entries of a mailbox carry one key, all checks accept if and only if nobody is in BCC, the older format has one recipient, and every To and CC address has an entry whose key is the resolved one and holds the body and every attachment |
| ClientRecipients.RefusedExactly | internal/email/service.go:1110-1142 | The older format is refused as such if and only if there is not exactly one address or it has no key, with all addresses named; any other refusal names exactly the addresses whose key is not in the body and in every attachment |
| ClientRecipients.MismatchedExactly | internal/email/service.go:1173-1184 | A mismatch names exactly the addresses whose claimed key is missing or not the resolved one |
| ClientRecipients.AcceptedIsReadable | internal/email/service.go:1084-1186 | For every table with one key a mailbox, what was accepted can be opened, body and attachments, with the key the server resolved for each To and CC address, and delivery reports exactly these as encrypted to |
| ClientRecipients.ClashSplitsTheChecks | internal/email/service.go:1104-1107 | Finding: any two entries of one mailbox with different keys, one that an envelope can hold and one that the server can resolve, let the two checks each see another key, and accept what the resolved key cannot open |
| ClientRecipients.ReadableExactlyWhen | internal/email/service.go:1091-1186 | Exactly when: the promise holds for a table, whatever else is in the request, whatever the server resolves and whatever the orders, if and only if no mailbox has two such entries |
| ClientRecipients.EqualKeysSuffice | internal/email/service.go:1104-1108 | Entries of one mailbox that carry the same key do no harm, nor does a table without two such entries |
| ClientRecipients.PaddedEntryClashes | internal/email/service.go:1104-1107 | Any two different keys of 64 hexadecimal digits, under an address and the same one padded, make a table that breaks the promise |

## Left out

What the model takes as given, or does not have:

- PostgreSQL, Redis, JSON, HTTP, logging and metrics: a statement or a store call is one atomic step on a map. The answer of a locking SELECT, the rows of a listing and the order in which a map is walked are parameters, restricted only to what the database or the runtime promises.
- Store calls that fail, other than an unreadable mark and a failed usage write. A failed mark of a queued message is the step that loses it.
- 64-bit overflow of counters, usage and times, and negative columns: numbers are unbounded.
- The clock: all workers and replicas share one that never goes back. The Redis mark and counter stores, whose expiry runs on another clock, are not modelled; their in-process counterparts are.
- LadderRuns.StoresAgree: each `Apply` is one step; overlapping calls for one account are not claimed, and an account the ladder meets has a mailbox row.
- ClientRecipients.AcceptedExactlyWhen: for tables whose entries of one mailbox carry one key; with different keys the outcome depends on the visiting orders.
- LadderRuns.HoldLasts: speaks of messages that are held. Mail already processing when a hold lands may still be delivered or retried, and mail enqueued afterwards waits as pending.
- QueueRuns.CallbackOnce: a callback is taken to be registered, and what it does with a bounce is its own affair.
- QueueRuns.FailedOnlyAfterBackoff: for messages never held, because a release makes a message due at once.
- RateLimitLaws.ForgettingIsInvisible: asks that periods be whole seconds and fixed per window name, and that a call read its counters before its buckets end; `ForgettingExactlyWhen` drops the last.
- RateLimitCaps.OvershootBound: the callers' counters are totals that never forget, so expiry during the race is not part of it.
- SendGate.DomainConserved: checks run one after the other; concurrent callers are the subject of `OvershootBound`.
- SendGate.KeptAlways: for checks that read their counters before their buckets end; a late read can admit beyond an account's max in a bucket that has ended.
- RateLimitCaps.TwiceTheMax: for ledgers of admissions decided on what had been counted, nothing forgotten; `SameDecisionExactlyWhen` says when the store decides so. The same goes for `BucketCap` and `RetryAfterIsEnough`.
- The text of a counter key: a key is a tuple of scope, id, name and bucket. The source joins them with colons, which names the same keys as long as ids hold no colon.
- GateCounts.MetersConserved: checks run one after the other, periods are whole seconds and those of the account windows the ones a throttle gives them, a minute, an hour and a day; `OvershootBound` is about concurrent callers. The same goes for `DeniedIsSpent` and `PermittedFits`.
- GateRuns.HoldSilences: a lookup that answers reads the ladder's stores at the instant of the check; mail accepted before the hold is the queue's affair.
- QueueLife.CanStillBeSent: says that some run delivers, not that every run does; deliveries succeed in it, and the worker goes on.
- SignerPool.SoundStep: assumes that promises resume in the order they were resolved, as JavaScript guarantees. The result or exception of a limited call is passed through and not modelled.
- DomainRegistry.HandlerCoherence: for a row that has not changed since the handler loaded it; `CoherentExactlyWhen` is for all. Requests reach the handlers with name and selector already trimmed and the name lower-cased; key generation, key parsing, case folding and the DNS answer are parameters. A broadcast reaches every replica, its own included, and the reload that a signal causes does not fail; reloads of one replica do not overlap.
- Reconciler.WholeWalk: how usage is measured and how the recorded components are read is not part of this model.
- Cryptography: SHA-256 is a function parameter, keys are strings, and no signature is made or verified.
- CanonicalLaws.HeadersDecide: for values without a line break, as an assembled message has them; `BreakConfuses` says why.
- DomainLife.ComesToLife: for runs of harmless steps, in which nobody overtakes a request on this domain; `CoherentExactlyWhen` and the two findings say what the others can do.
- CanonicalForm.VerifierRebuilds: for headers that agree as stated, and a lower-casing that leaves the signable names alone. The message-id that the transport signs differs from the one on the wire by its angle brackets, and MIME assembly is not modelled.
- Base64Wire.WireRoundTrip: the bodies only; the headers of an attachment part and the choice of the transfer encoding are left out, and so is quoted-printable.
- ProtectedHeaders.ParseUndoesWrap: the cache of subjects per browser tab is left out.
- ClientRecipients.AcceptedIsReadable: lower-casing is a parameter that acts on each character. Envelopes hold keys of 64 hexadecimal digits; the rest of their shape, upload authorizations and the server-side encryption mode are left out. Keys that the server resolves are of that shape, too, or any text, as its own accounts registered them; both cases are proved.
- `GetMessage`, `Stats`, the thresholds that turn signals into a warranted rung, plus-tag stripping, filter rules and the migrator: single reads and pure look-ups that no protocol above depends on.
