# OpenLander: verified models of its state machines, windows and codecs

OpenLander is a self-hosted deployment platform. Most of it is input and output, but a number of small
state machines decide whether two deploys collide, whether an access token survives a rotation, whether a
question is answered twice or a migration applied twice. This project models those parts in Dafny and
proves, for every input and every interleaving, what their code and comments promise.

`dafny verify dfyconfig.toml` checks everything.

## How the models are built

- **State and steps.** Each component has a value type for its state and one function per operation, and the
  theorems are about runs of these functions. A class with the source's fields has the same operations as
  methods; loops stay loops. Each method keeps the component's invariant, or ties the fields to a ghost history
  of all calls so far, and states what its answer means in those terms.
- **Suspension points.** JavaScript runs one thing at a time between two `await`s, so an `await` is a step
  boundary: whatever else the service does may come between the steps on either side of it.
- **Time** is a parameter of each step. Runs assume a clock that does not go back, and nothing else.
- **Timers.** The runtime's pending timeouts are an explicit table; `clearTimeout` removes a handle, and only
  a handle still in the table can fire, at or after its due time.
- **What is assumed of the outside.** Hashing is injective, decryption inverts encryption, random values are
  fresh where a lemma says so, and `JSON.parse` is any function. The token table keeps its constraints: unique ids
  and hashes, and at most one legacy row, which never expires. A usable access token of the organisation that is
  issued outside the lock is issued only when that is safe (`SafeToIssue`); the service itself does not check this.

| file | component |
|---|---|
| `ProjectLease.dfy` | the per-project lease lock and its 30-minute takeover |
| `AgentPool.dfy` | the five-agent pool with idle timers and eviction |
| `PromiseLock.dfy` | the mutex made of chained promises, in both of its forms |
| `TokenStore.dfy`, `OrgTokenProtocol.dfy`, `TokenRefresh.dfy` | access tokens, the single-token protocol under interleaving, and validation during a rotation |
| `CircuitBreaker.dfy`, `RateLimit.dfy`, `CallBudget.dfy`, `TimeWindow.dfy` | sliding windows: the model circuit breaker, the ops agent's hourly limits and the coordinator's call budget |
| `QuestionBridge.dfy` | pending questions, their timers, and the reply walk over agents |
| `OpsQueue.dfy` | the ops agent's single-consumer event queue |
| `RecoveryTrace.dfy` | the recovery coordinator's interleaved handlers |
| `Postmortem.dfy` | the debounced postmortem timers |
| `Migrations.dfy` | the migration runner and the baseline guard |
| `Ndjson.dfy`, `JsText.dfy`, `Utf8Chunks.dfy` | the chunked line reader |
| `QuestionCodec.dfy`, `Base64Url.dfy`, `Utf8.dfy` | the chat component codec |
| `ShellQuote.dfy` | shell quoting, judged by a POSIX tokenizer |
| `RingBuffer.dfy` | the circular buffer |

## Where the code does not keep a promise

Each of these has a lemma with the failing case, a lemma with the exact condition, or both; the last is a comment only.

- Releasing a lease compares session ids only. Two overlapping operations of one session on one project let the
  first one's late release drop the second one's lease. A grant is safe for every continuation exactly when the
  session has no operation of its own still running on the project (`SafeExactlyWhenNotReentrant`); a run that
  gets there is given (`ReentryIsReachable`).
- A question whose UI callback throws is rejected at once but stays pending (`ThrowingHandlerStaysPending`), so a
  later reply is accepted and changes nothing. A reply is heard if and only if the callback did not throw
  (`ReplyIsHeardExactlyWhenHandlerReturned`).
- `replyToQuestion("")` reports delivery although nothing is delivered (`EmptyIdIsMisreported`) whenever some bridge
  has a question pending and none has the empty id; in all other cases the report is truthful
  (`DeliveryReportIsTruthful`).
- A circuit breaker configured with a threshold below one has closed providers at or above the threshold
  (`ThresholdMustBePositive`).
- The coordinator's call budget is asked and recorded in different steps, and `ai:invoked` records without asking,
  so an hour can hold any number of calls (`BudgetCanBeOvershot`, `InvokedIgnoresTheBudget`). A claim is safe for
  every continuation exactly when the calls of the hour plus the grants not yet recorded are below the budget
  (`SafeExactlyWhenRoomForAll`). The ops agent's limits hold if each call is asked for and recorded in one step.
- A validation that finds its token to be the stored one writes the legacy row anew, which clears a revocation. If
  it does so after a rotation (`RefreshAfterRotation`), or inside one between the revocation and the storing of the
  new API token (`RefreshInsideRotation`), the old token still resolves when everything is over. At the step that
  stores the new API token, an old token is cut off for good exactly when no usable row carries its hash and no
  validation of it is between its comparison and its write (`CutOffExactlyWhenNothingCarriesIt`). If no such write
  happens during a rotation, that is exactly when none is pending then (`RotationCutsOffExactlyWhenNonePending`).
- The token route issues access tokens of the organisation outside the lock, so there can be two usable ones after
  an ensure (`IssueAfterEnsure`), and even if none was usable before (`IssueInsideEnsure`). Issuing is safe for every
  continuation exactly when none is usable and no operation under way is going to create a usable one
  (`SafeToIssueExactly`).
- A multi-byte character that a chunk boundary cuts in two is lost to the line reader (`CutCharacterIsLost`). Decoding
  chunk by chunk gives the text of the stream exactly when no cut splits a sequence
  (`DecodesAsWholeExactlyWhenCutsFit`).
- A journal entry older than one already applied is skipped on upgrade but applied on a fresh install
  (`OlderEntryIsSkipped`); upgrading equals a fresh run exactly when every added entry is newer
  (`UpgradeEqualsFreshRunExactlyWhenForward`).
- A component label with a lone surrogate does not survive the codec, and a request id with a colon does not decode
  at all (`RoundTripsExactlyWhen`).
- The class comment of the circuit breaker says `half_open` allows limited calls; the code allows every call, and the
  model follows the code.

## Model

| member | source | states |
|---|---|---|
| `ProjectLease.LeaseExclusion` | src/_ai-ops/agent-pool.ts:326-387 | in every run in which no session re-enters a project, two operations on one project run at the same time only if they started at least 30 minutes apart |
| `ProjectLease.LateReleaseIsHarmless` | src/_ai-ops/agent-pool.ts:343-348 | in such a run an operation that settles frees the project if the lease is still its own and otherwise changes no lease, so an evicted holder never drops its successor's |
| `ProjectLease.SafeExactlyWhenNotReentrant` | src/_ai-ops/agent-pool.ts:369-387 | a granted operation keeps every disciplined continuation exclusive if and only if its session has no operation running on that project |
| `ProjectLease.ReentryBreaksExclusion` | src/_ai-ops/agent-pool.ts:343-348 | after a re-entrant grant two disciplined steps reach a state with two bodies that started at the same moment |
| `ProjectLease.ReentryIsReachable` | src/_ai-ops/agent-pool.ts:369-387 | a run of four steps from the start, in which a session begins anew after 30 minutes, ends with two bodies that started at the same moment |
| `ProjectLease.GrantedAfterTimeout` | src/_ai-ops/agent-pool.ts:326-337 | when a lease is granted, whatever still runs on the project started at least 30 minutes before the check |
| `ProjectLease.AdmissionInEveryRun` | src/_ai-ops/agent-pool.ts:326-381 | in every run without re-entry an operation is admitted if and only if no operation younger than 30 minutes holds the project's lease, whichever session asks |
| `ProjectLease.AdmittedExactlyWithoutYoungHolder` | src/_ai-ops/agent-pool.ts:326-381 | the same in every state the invariant allows, with the rest of the answer: an admitted operation holds the lease, a refused one is told a holder exactly if it is still young by then, and other projects' leases stay |
| `ProjectLease.ProjectLocks.GetProjectLock` | src/_ai-ops/agent-pool.ts:354-362 | while sessions do not re-enter, a lease is reported exactly while a running operation younger than 30 minutes holds it; otherwise none is left afterwards; other projects' leases stay |
| `ProjectLease.ProjectLocks.BeginWithProjectLock` | src/_ai-ops/agent-pool.ts:369-381 | admits exactly when no young operation holds the lease, and then holds it; an admitted operation overlaps only operations that started 30 minutes before; a refused one is told the session of a younger one; the invariant is kept unless the session re-enters |
| `ProjectLease.ProjectLocks.FinishOperation` | src/_ai-ops/agent-pool.ts:382-386 | the `finally` block removes the operation's own lease, leaves every other lease alone, and keeps the invariant |
| `AgentPool.PoolInvariant` | src/_ai-ops/agent-pool.ts:73-126 | after every sequence of calls and timer callbacks: at most five sessions, idle timers exactly on the pooled inactive ones, each armed for ten minutes after its last access, and distinct agents |
| `AgentPool.RefusesExactlyWhenSaturated` | src/_ai-ops/agent-pool.ts:73-107 | access is refused if and only if the session is unpooled and all five entries are active, and then nothing changes; a pooled session gets its own agent back, a new one a new agent |
| `AgentPool.EvictsLeastRecentlyUsed` | src/_ai-ops/agent-pool.ts:278-297 | access removes a session only from a full pool, at most one, idle, and not accessed later than any other idle one |
| `AgentPool.ActiveSessionsStay` | src/_ai-ops/agent-pool.ts:281-309 | no step but `invalidateAll` removes an active session or changes its agent |
| `AgentPool.ExpiresOnlyWhenIdle` | src/_ai-ops/agent-pool.ts:299-311 | a timer removes only a session that was idle and untouched for ten minutes |
| `AgentPool.OldestIsLeast` | src/_ai-ops/agent-pool.ts:278-293 | the scan finds the first idle session, in insertion order, of least access time, and none only if none is idle |
| `AgentPool.ReleaseMakesRoom` | src/_ai-ops/agent-pool.ts:73-118 | as long as a released session is pooled and not accessed again, no access is refused, whatever else happens |
| `AgentPool.ReleaseEffect` | src/_ai-ops/agent-pool.ts:109-118 | a pooled session becomes inactive from now on with a timer due after ten minutes, and nothing else changes; for an unpooled one nothing does |
| `AgentPool.AccessEffect` | src/_ai-ops/agent-pool.ts:73-107 | a granted session is active from now on, without a timer and last in the order if new; every session that stays keeps its entry and timer, and only one is evicted, only from a full pool |
| `AgentPool.FireEffect` | src/_ai-ops/agent-pool.ts:299-311 | a timer that fires takes its session out of the pool, and nothing else |
| `AgentPool.SessionPool.GetOrCreateAgent` | src/_ai-ops/agent-pool.ts:73-107 | reuses, admits after at most one eviction, or refuses without any change, leaving every other session as it was, and keeps the pool invariant |
| `AgentPool.SessionPool.ReleaseAgent` | src/_ai-ops/agent-pool.ts:109-118 | makes a pooled session inactive from now on and restarts its timer, leaving everything else as it was, and keeps the invariant |
| `AgentPool.SessionPool.InvalidateEverything` | src/_ai-ops/agent-pool.ts:120-126 | leaves no session, no order and no timer |
| `AgentPool.SessionPool.Evict` | src/_ai-ops/agent-pool.ts:278-297 | the scanning loop removes what the reference scan names, with its timer |
| `AgentPool.SessionPool.FireTimer` | src/_ai-ops/agent-pool.ts:301-309 | removes exactly the timer's session with its timer, keeping the invariant |
| `PromiseLock.OneAtATimeInCallOrder` | src/auth/auth-service.ts:496-512 | in every interleaving at most one operation is inside, and operations start in call order, whichever of them throw |
| `PromiseLock.NextInLineMayEnter` | src/llm/agent.ts:592-605 | a waiting call may enter exactly when every earlier call is done, so no wakeup is lost; for both forms of the mutex |
| `PromiseLock.LeavingLetsNextEnter` | src/auth/auth-service.ts:506-511 | an operation that ends, by returning or throwing, is done, changes no other call and lets the next waiting call enter |
| `PromiseLock.CallingWaits` | src/auth/auth-service.ts:497-506 | a new call waits, changes no other call, and may enter at once exactly if all calls before it are done |
| `PromiseLock.SettledExactlyWhenAllDone` | src/auth/auth-service.ts:497-506 | the promise a call awaits settles exactly when all earlier calls are done |
| `PromiseLock.Mutex.TakeTicket` | src/auth/auth-service.ts:497-506 | what the caller awaits has settled once all earlier calls are done and not before the one right before it is, and in the chained form not before all of them are; the stored promise does not settle before the caller's own |
| `OrgTokenProtocol.SingleOrgToken` | src/auth/auth-service.ts:679-810 | once any ensure or rotate has returned, every later state of every interleaving has at most one usable organisation token, from any initial table and with any operations throwing, provided that usable tokens of the organisation are issued outside the lock only when none is usable and no operation under way is going to create one |
| `OrgTokenProtocol.ReturnedRowIsTheOne` | src/auth/auth-service.ts:735-760 | when an operation returns, the row it reports is the only one that can be usable, provided that such tokens are issued outside the lock only when none is usable and no operation has listed |
| `OrgTokenProtocol.EndingFreesTheLock` | src/auth/auth-service.ts:506-511 | an ensure or rotate that returns or throws leaves the database alone, is done, and lets the next one in |
| `OrgTokenProtocol.SafeToIssueExactly` | src/web/api/auth-routes.ts:485-611 | after an operation has returned, issuing a usable organisation token outside the lock keeps at most one in every continuation if and only if none is usable and no operation under way is going to create a usable one |
| `OrgTokenProtocol.IssuingKeepsOneExactlyWhenNone` | src/web/api/auth-routes.ts:485-611 | issuing a usable organisation token leaves at most one usable if and only if none was usable before |
| `OrgTokenProtocol.IssueAfterEnsure` | src/web/api/auth-routes.ts:485-611 | a run in which an ensure returns its token and the token route issues another leaves two usable |
| `OrgTokenProtocol.IssueInsideEnsure` | src/web/api/auth-routes.ts:485-611 | a run in which the token route issues a token, with none usable, between the listing and the creation of an ensure leaves two usable |
| `OrgTokenProtocol.AdvanceCovers` | src/auth/auth-service.ts:692-753 | each database call keeps the operation's plan covering every usable token, and adds one only when there is none |
| `OrgTokenProtocol.AloneIsSequential` | src/auth/auth-service.ts:679-810 | run without interference, the steps compute the sequential ensure and rotate: the same database and the same answer with its row and revoked ids |
| `OrgTokenProtocol.EnsureLeavesExactlyOne` | src/auth/auth-service.ts:692-760 | ensure keeps the newest usable token and revokes the rest, or finds none and creates the only one, or fails on its expiry leaving none |
| `OrgTokenProtocol.RotateEffect` | src/auth/auth-service.ts:776-809 | a rotation revokes exactly the organisation's usable rows, changes no other row, reports their ids, stores the new API token and creates its row exactly for a valid expiry |
| `OrgTokenProtocol.EnsureEffect` | src/auth/auth-service.ts:692-760 | an ensure revokes exactly the usable legacy rows and all usable access tokens but the newest, changes no other row, reports their ids, and stores a new API token exactly if it found a usable legacy row or no usable access token |
| `OrgTokenProtocol.TwoTokensWithoutTheLock` | src/auth/auth-service.ts:683-753 | two ensures that both list before either creates leave two usable tokens |
| `OrgTokenProtocol.ValidateIsElsewhere` | src/auth/auth-service.ts:445-456 | resolving a bearer token, with its refresh of the legacy row, creates no usable organisation token |
| `OrgTokenProtocol.IssuingForOthersIsElsewhere` | src/auth/auth-service.ts:570-629 | issuing a token of any other kind creates no usable organisation token |
| `TokenStore.ResolvesTo` | src/auth/auth-service.ts:412-464 | a token resolves to the row that carries it, with that row's id, type and scopes, as long as the row is neither revoked nor expired; otherwise to the anonymous legacy identity exactly if it is the stored API token, and else to nothing |
| `TokenStore.ValidateEffect` | src/auth/auth-service.ts:445-449 | resolving writes only when the stored API token matched and no row vouched, and then only refreshes the legacy row |
| `TokenStore.UpsertEffect` | src/db/repos/pat-token.repo.ts:86-131 | refreshing gives the legacy row the hash and clears its revocation, or inserts it without expiry; no other row changes |
| `TokenStore.RotationCutsOffOldTokens` | src/auth/auth-service.ts:764-810 | after a rotation no token that resolved to an organisation identity resolves, at any later time, even if issuing failed |
| `TokenStore.RotatedTokenResolves` | src/auth/auth-service.ts:412-431 | the issued token resolves to the new row, with the row's fields as requested, until it expires and to nothing afterwards; the reported ids are the rows that were active |
| `TokenStore.RotationKeepsOtherTokens` | src/auth/auth-service.ts:777-793 | tokens of projects and services resolve as before |
| `TokenRefresh.CutOffExactlyWhenNothingCarriesIt` | src/auth/auth-service.ts:375-379 | when the stored API token is replaced, an old token never resolves again, whatever validations, operations and other requests follow, if and only if no usable row carries its hash and no validation of it is between its comparison and its write |
| `TokenRefresh.RotationCutsOffExactlyWhenNonePending` | src/auth/auth-service.ts:764-810 | a rotation in single steps with anything in between, during which no validation of an old organisation token writes the legacy row, cuts the token off for good if and only if no validation of it is about to write when the new API token is stored |
| `TokenRefresh.RefreshInsideRotation` | src/auth/auth-service.ts:776-801 | a run in which a complete validation of the old token comes between the revocation and the storing of the new API token ends with the old token resolving |
| `TokenRefresh.RefreshAfterRotation` | src/auth/auth-service.ts:445-449 | a run in which a validation compares, a rotation runs and the validation writes ends with the old token resolving |
| `TokenRefresh.RunKeepsCutOff` | src/auth/auth-service.ts:412-464 | a token that no usable row, no stored token and no pending validation carries stays so in every run whose random values avoid it |
| `TokenRefresh.RunKeepsInv` | src/db/repos/pat-token.repo.ts:77-140 | every interleaving keeps ids and hashes unique, one legacy row that never expires, and API tokens apart from access tokens |
| `TokenRefresh.WriteLegacyKeepsOthers` | src/db/repos/pat-token.repo.ts:90-131 | the write of a suspended validation changes the legacy row alone, or inserts it |
| `TokenRefresh.ValidateAlone` | src/auth/auth-service.ts:412-464 | uninterrupted, the steps of a validation compute the sequential validation |
| `TokenStore.AuthService.RotateOrgMcpPatToken` | src/auth/auth-service.ts:764-810 | the loop revokes every active organisation row, replaces the API token and issues a new token or fails |
| `TokenStore.AuthService.EnsureOrgMcpPatToken` | src/auth/auth-service.ts:679-762 | the two loops revoke legacy and duplicate tokens and keep the first, or issue one |
| `TokenStore.AuthService.RevokeEach` | src/auth/auth-service.ts:782-793 | revokes a list of rows and reports, in order, exactly the ids that still have a row |
| `CircuitBreaker.Refines` | src/llm/llm-circuit-breaker.ts:111-224 | after every run each provider agrees with a reference that reads the whole history and prunes nothing |
| `CircuitBreaker.PrunedListIsExact` | src/llm/llm-circuit-breaker.ts:216-224 | the pruned list is exactly the counted failures since the last success that lie in the window |
| `CircuitBreaker.CanCallMatchesReference` | src/llm/llm-circuit-breaker.ts:154-174 | `canCall` is false exactly while the provider is open and less than the cooldown after the last opening |
| `CircuitBreaker.PhaseIsReadFromEvents` | src/llm/llm-circuit-breaker.ts:111-174 | read off the events alone: a provider is open exactly when some failure opened it last and no success or question after the cooldown ended that, with that failure's time, and half-open exactly when such a question put it on probation and no success or failure decided since |
| `CircuitBreaker.RefusedExactlyDuringCooldown` | src/llm/llm-circuit-breaker.ts:154-174 | `canCall` is false if and only if the history holds a last opening (a counted failure that opened the provider, not ended since) less than the cooldown ago |
| `CircuitBreaker.ThresholdMustBePositive` | src/llm/llm-circuit-breaker.ts:123-129 | a closed provider has fewer failures than the threshold after every run if and only if the threshold is at least one |
| `CircuitBreaker.StatusMatchesReference` | src/llm/llm-circuit-breaker.ts:182-200 | the status reports the reference's failure count, its phase, and the remaining cooldown, zero once it is over and none unless open |
| `CircuitBreaker.NonInterference` | src/llm/llm-circuit-breaker.ts:111-224 | erasing health-check failures, status reads and other providers' events leaves every `canCall` answer of a provider unchanged |
| `CircuitBreaker.LlmCircuitBreaker.RecordFailure` | src/llm/llm-circuit-breaker.ts:111-130 | extends the history; a health check changes nothing; afterwards the provider is open exactly if some failure opened it last and nothing ended that |
| `CircuitBreaker.LlmCircuitBreaker.RecordSuccess` | src/llm/llm-circuit-breaker.ts:139-144 | extends the history; afterwards no failure counts and no opening is in force |
| `CircuitBreaker.LlmCircuitBreaker.CanCall` | src/llm/llm-circuit-breaker.ts:154-174 | extends the history; refuses exactly while less than the cooldown has passed since the last opening in it |
| `CircuitBreaker.LlmCircuitBreaker.GetStatus` | src/llm/llm-circuit-breaker.ts:182-200 | count, phase and remaining cooldown are those the whole history of events gives |
| `TimeWindow.Prune` | src/llm/llm-circuit-breaker.ts:216-219 | the filtering loop keeps, in order, the times not before the bound |
| `RateLimit.EveryHourIsBounded` | src/_ai-ops/ops-agent.ts:407-426 | if every recorded call follows its own negative answer in the same step, every one-hour window holds at most 3 calls per project and 20 overall |
| `RateLimit.AnswersAsFullHistory` | src/_ai-ops/ops-agent.ts:407-426 | after any mix of questions and recorded calls the pruned lists answer as the unpruned history would |
| `RateLimit.AttemptIsMadeExactlyBelowLimits` | src/_ai-ops/ops-agent.ts:407-426 | a guarded call is made, once, exactly when fewer than both limits were made in the last hour |
| `RateLimit.OpsCallLimiter.IsLlmRateLimited` | src/_ai-ops/ops-agent.ts:407-415 | true exactly when the full call history holds 3 calls of the project or 20 overall within the last hour |
| `RateLimit.OpsCallLimiter.RecordLlmCall` | src/_ai-ops/ops-agent.ts:417-426 | extends the call history by one and keeps every pruned list faithful to it |
| `CallBudget.SafeExactlyWhenRoomForAll` | src/_ai-ops/recovery-coordinator.ts:198-208 | a granted question or an unasked call keeps every hour of every disciplined continuation within the budget if and only if the calls of the hour and the grants not yet recorded together are below it |
| `CallBudget.BudgetBoundsEveryHour` | src/_ai-ops/recovery-coordinator.ts:198-208 | if every claim is made with such room, no hour of the run holds more calls than the budget |
| `CallBudget.BudgetCanBeOvershot` | src/_ai-ops/recovery-coordinator.ts:352-360 | for every positive budget and every number there is a run of handlers that ask and then record with that many calls in one hour |
| `CallBudget.InvokedIgnoresTheBudget` | src/_ai-ops/recovery-coordinator.ts:132-134 | for every budget and every number there is a run of `ai:invoked` events with that many calls in one hour |
| `CallBudget.LlmBudget.RecordLlmCall` | src/_ai-ops/recovery-coordinator.ts:198-202 | extends the call history by one and keeps the list faithful to it |
| `CallBudget.LlmBudget.IsGlobalBudgetExceeded` | src/_ai-ops/recovery-coordinator.ts:204-208 | true exactly when the full history holds the maximum within the last hour |
| `QuestionBridge.SettlesAtMostOnce` | src/lib/question-bridge.ts:169-262 | in every run an ask is settled at most once, save one its throwing handler already rejected; an unsettled ask has an armed timer |
| `QuestionBridge.SettledByDeadline` | src/lib/question-bridge.ts:184-190 | with timers at most `slack` late, every ask is settled before anything happens later than that after its five minutes |
| `QuestionBridge.SettlesInTime` | src/lib/question-bridge.ts:184-233 | with timers at most `slack` late, no step settles an ask later than that after its five minutes |
| `QuestionBridge.SupersededTimerIsHarmless` | src/lib/question-bridge.ts:184-190 | the timer of a superseded ask rejects that ask and leaves the newer entry and all other asks alone |
| `QuestionBridge.ReplyReachesNewestAsk` | src/lib/question-bridge.ts:217-233 | a reply settles the newest ask of its id and no other, is its first settlement exactly when its handler did not throw, and repeating it changes nothing |
| `QuestionBridge.RejectEffect` | src/lib/question-bridge.ts:243-262 | dismissing a pending id settles its newest ask without answers and touches no other ask, entry or timer; an unknown id changes nothing; with no id every pending ask is settled once, no other changes, and nothing is pending |
| `QuestionBridge.ReplyEffect` | src/lib/question-bridge.ts:217-233 | a reply settles exactly the current ask of its id and removes exactly its entry and timer; an unknown id changes nothing |
| `QuestionBridge.TimeoutEffect` | src/lib/question-bridge.ts:184-190 | a timer rejects exactly its ask and removes the entry exactly if it is the current one |
| `QuestionBridge.TimesOutAfterFiveMinutes` | src/lib/question-bridge.ts:169-206 | an unanswered ask times out from five minutes after it was made and not before; an answered one never does |
| `QuestionBridge.ThrowingHandlerStaysPending` | src/lib/question-bridge.ts:176-205 | in every state a throwing callback rejects the ask and leaves it the pending one |
| `QuestionBridge.ReplyIsHeardExactlyWhenHandlerReturned` | src/lib/question-bridge.ts:176-233 | after any continuation in which the ask is still pending, the asker hears a reply if and only if the callback did not throw; otherwise the reply is accepted and comes second |
| `QuestionBridge.DeliveryReportIsTruthful` | src/_ai-ops/agent-pool.ts:183-199 | over all bridges of a walk, delivery is reported exactly when the reply reaches an ask, if and only if the id is not empty, or some bridge has the empty id, or no bridge has anything |
| `QuestionBridge.EmptyIdIsMisreported` | src/_ai-ops/agent-pool.ts:183-199 | with one question pending, a reply to the empty id is reported as delivered and changes nothing |
| `QuestionBridge.ReplyToQuestion` | src/_ai-ops/agent-pool.ts:183-199 | for any sharing of bridges among agents, each bridge is left as after one reply, and delivery is reported if and only if some bridge's presence test said so before |
| `QuestionBridge.Bridge.AskUser` | src/lib/question-bridge.ts:169-206 | the new ask is pending under its id with its timer armed, unsettled unless its handler threw; all earlier asks, entries of other ids and timers stay; the invariant is kept |
| `QuestionBridge.Bridge.ReplyTo` | src/lib/question-bridge.ts:217-233 | removes the entry, disarms its timer and resolves it |
| `QuestionBridge.Bridge.RejectAsk` | src/lib/question-bridge.ts:243-262 | dismisses exactly the given pending ask, or with no id every pending one, and nothing else |
| `QuestionBridge.Bridge.HasPendingAsk` | src/lib/question-bridge.ts:267-272 | true exactly when dismissing the id, or with an absent or empty id everything, would change the bridge |
| `QuestionBridge.Bridge.OnTimeout` | src/lib/question-bridge.ts:184-190 | rejects exactly this ask and removes the entry only if it is still the current one |
| `OpsQueue.QueueInvariant` | src/_ai-ops/ops-agent.ts:134-167 | in every run the accepted events are the handled, then the one in flight, then the queued, in order; at most one consumer exists; a running agent with work and no start in progress has one |
| `OpsQueue.EverythingIsHandled` | src/_ai-ops/ops-agent.ts:145-167 | whatever is enqueued, stopped or restarted meanwhile, once as many routes have ended as events were waiting, all these are handled in order; in a started agent that is not stopped, a route is under way as long as one of them is not |
| `OpsQueue.StoppedTakesNothing` | src/_ai-ops/ops-agent.ts:152-166 | no step of a stopped agent takes an event from the queue or starts a route |
| `OpsQueue.RunningTakesNext` | src/_ai-ops/ops-agent.ts:152-166 | while the agent runs, the end of a route starts the next event of the queue |
| `OpsQueue.OpsAgentQueue.EnqueueEvent` | src/_ai-ops/ops-agent.ts:134-143 | a stopped agent changes nothing; a running one has accepted the event and has exactly one consumer; the queue invariant is kept |
| `OpsQueue.OpsAgentQueue.ProcessEvents` | src/_ai-ops/ops-agent.ts:145-151 | establishes the queue invariant from conservation and a single consumer, so that work is never left without one |
| `OpsQueue.OpsAgentQueue.ResumeLoop` | src/_ai-ops/ops-agent.ts:152-166 | a running agent takes the oldest queued event, a stopped one or an empty queue ends the consumer; every accepted event is again handled, in flight or queued, with at most one consumer |
| `OpsQueue.OpsAgentQueue.EndRoute` | src/_ai-ops/ops-agent.ts:158-163 | the oldest unhandled event becomes handled whether routing returned or threw, and the invariant is kept |
| `OpsQueue.OpsAgentQueue.BeginStart` | src/_ai-ops/ops-agent.ts:47-52 | the agent runs, no event is lost, and the invariant is kept while the start is in progress |
| `OpsQueue.OpsAgentQueue.EndStart` | src/_ai-ops/ops-agent.ts:92-105 | whatever is still queued then has a consumer, and the invariant is kept |
| `OpsQueue.OpsAgentQueue.StopAgent` | src/_ai-ops/ops-agent.ts:107-108 | every accepted event stays accounted for |
| `RecoveryTrace.TraceSafety` | src/_ai-ops/recovery-coordinator.ts:352-449 | under any interleaving a handler never emits both started and blocked, started directly follows its own accepted transition to recovering or sight of that status, and a finished handler's degraded is followed by blocked |
| `RecoveryTrace.FinishedTraceIsDecided` | src/_ai-ops/recovery-coordinator.ts:352-449 | under any interleaving, how its awaited calls ended decides the trace a finished handler leaves: started after a granted transition or the status seen, degraded and blocked otherwise, blocked if ineligible, after the move to error for unhandled container failures |
| `RecoveryTrace.SilentExactlyWhen` | src/_ai-ops/recovery-coordinator.ts:352-477 | a finished handler leaves no trace if and only if a check threw, an eligible deploy handler ended, or the failed container's move to error did not happen; an eligible health or container handler always ends with started or degraded and blocked |
| `RecoveryTrace.NextStaysOnPath` | src/_ai-ops/recovery-coordinator.ts:352-449 | every outcome of every awaited call keeps what the handler has written a part of the trace its calls decide |
| `RecoveryTrace.SignalsAreExclusive` | src/_ai-ops/recovery-coordinator.ts:295-350 | per project at most one ingested signal is in flight, and the slot is taken exactly while it is, on every exit |
| `RecoveryTrace.RecoveryCoordinator.IngestRuntimeSignal` | src/_ai-ops/recovery-coordinator.ts:295-304 | a signal enters exactly when no ingested signal of its project is live, and the trace and slot invariants are kept |
| `RecoveryTrace.RecoveryCoordinator.ResumeHandler` | src/_ai-ops/recovery-coordinator.ts:305-449 | whatever the awaited call did, the invariants are kept; a handler that is done has left exactly the trace its calls decide and freed its slot |
| `Postmortem.FiresOnlyAfterQuietDelay` | src/app.ts:116-149 | a timer fires only if its project's success came at least the delay earlier and no success, cancel event, firing or disposal concerned the project since |
| `Postmortem.ArmedExactlyWhenQuiet` | src/app.ts:105-166 | after every run a project has at most one armed timer, and has one exactly when its last success is still quiet |
| `Postmortem.PostmortemAutomation.OnRecoverySuccess` | src/app.ts:116-149 | unless disposed, the project has exactly one armed timer, due after the full delay |
| `Postmortem.PostmortemAutomation.OnCancelEvent` | src/app.ts:151-155 | afterwards no timer of the project is armed |
| `Postmortem.PostmortemAutomation.DisposeAll` | src/app.ts:157-166 | the loop leaves no timer armed at all |
| `Postmortem.PostmortemAutomation.FireTimer` | src/app.ts:119-121 | a firing comes at least the delay after a success of the project that nothing followed, and leaves the project without a timer |
| `Migrations.EveryBootSequenceAppliesOnce` | src/db/index.ts:244-287 | over any sequence of boots, failed or older releases included, of prefixes of one increasing journal, the database equals one fresh run of the longest committed journal |
| `Migrations.BootStep` | src/db/index.ts:202-253 | the guard admits a release exactly when its journal is not shorter than what is applied, and refuses without change otherwise |
| `Migrations.UpgradeEqualsFreshRunExactlyWhenForward` | src/db/index.ts:255-287 | upgrading equals a fresh run of the grown journal if and only if every added entry is newer than every applied one |
| `Migrations.OlderEntryIsSkipped` | src/db/index.ts:274-287 | an added entry that is not newer is skipped on upgrade and applied on a fresh install |
| `Migrations.RerunIsNoOp` | src/db/index.ts:255-287 | booting again with the same journal changes nothing |
| `Migrations.FreshRunDoesEverything` | src/db/index.ts:274-287 | a fresh run records every entry of the journal and executes every non-blank statement of each, in order |
| `Migrations.MigrationRunner.RunMigrations` | src/db/index.ts:255-287 | the loop applies exactly the entries newer than the newest row read before it |
| `Migrations.MigrationRunner.NewestRow` | src/db/index.ts:270-273 | the greatest creation time in the table, none exactly if the table is empty |
| `Migrations.MigrationRunner.Execute` | src/db/index.ts:277-280 | runs the non-blank statements in order |
| `Migrations.MigrationRunner.MigrateWithGuard` | src/db/index.ts:202-253 | refuses, without change, exactly if there is a legacy audit table, a legacy column, a non-empty other migration table or more rows than the journal has entries, and migrates otherwise |
| `Ndjson.Stream` | src/ipc/client.ts:439-467 | for every way of cutting the bytes into chunks, yields exactly what the lines of the decoded chunks yield, an unterminated last line included; that is what the lines of the whole stream yield if no cut splits a character |
| `Ndjson.ChunkInvariance` | src/ipc/client.ts:439-443 | two ways of cutting the same characters into chunks give the reader the same text |
| `Utf8Chunks.DecodesAsWholeExactlyWhenCutsFit` | src/ipc/client.ts:442 | chunk by chunk, a byte stream decodes to the text of the whole if and only if every cut is on a boundary of the decoder |
| `Utf8Chunks.CharacterCutsFit` | src/ipc/client.ts:442 | cuts between characters are always on boundaries, and nothing is lost |
| `Utf8Chunks.CutCharacterIsLost` | src/ipc/client.ts:442 | a euro sign cut after its first byte becomes three replacement characters |
| `Utf8Chunks.ReplacesMaximally` | src/ipc/client.ts:442 | replaced bytes start no valid encoding, and with one byte more are the beginning of none |
| `Utf8Chunks.ReplacesOnlyBeginnings` | src/ipc/client.ts:442 | a replaced sequence of several bytes is the beginning of some valid encoding |
| `Ndjson.YieldsEveryParsingLine` | src/ipc/client.ts:447-456 | a value is yielded exactly for the non-blank lines whose trimmed text parses to it |
| `Ndjson.LinesYieldInOrder` | src/ipc/client.ts:447-456 | each non-blank line that parses yields its one value, every other line nothing, one line after the other |
| `Ndjson.LinesAreTheStream` | src/ipc/client.ts:443-445 | the lines joined by newlines are the text, and no line contains one |
| `JsText.SplitConcat` | src/ipc/client.ts:443-445 | the unfinished last piece of one part grows into the first piece of the next |
| `JsText.TrimIsMiddle` | src/ipc/client.ts:448 | trimming takes white space from both ends and nothing from the middle |
| `QuestionCodec.DecodeOfEncode` | src/channels/base.ts:50-79 | for every id, index and label: nothing decodes if the id contains a colon, and otherwise id, index and label come back with lone surrogates replaced |
| `QuestionCodec.RoundTripsExactlyWhen` | src/channels/base.ts:50-79 | the round trip is exact if and only if the id has no colon and the label is well-formed UTF-16 |
| `QuestionCodec.DecodesExactly` | src/channels/base.ts:63-79 | over every text: exactly the texts of the prefix, an id, a natural number and a label, with no further colon, decode, to that id, number and decoded label |
| `QuestionCodec.EncodedParts` | src/channels/base.ts:55-60 | an encoded value splits into the prefix, the pieces of the id, the index and the label |
| `Base64Url.DecodeInvertsEncode` | src/channels/base.ts:74 | decoding inverts encoding for all bytes (section 5 of RFC 4648) |
| `Base64Url.GroupsAreBigEndian` | src/channels/base.ts:55 | each group of three bytes and its four values are the same 24 bits, most significant first (section 4 of RFC 4648) |
| `Utf8.DecodeInvertsEncode` | src/channels/base.ts:55 | through UTF-8 and back a string keeps everything but its lone surrogates, and everything if and only if it has none |
| `ShellQuote.QuoteRoundTrip` | src/git-credentials/manager.ts:151-153 | the shell reads a quoted string as exactly one word, the string itself |
| `ShellQuote.CommandRoundTrip` | src/git-credentials/manager.ts:160-182 | the shell reads the built SSH command as exactly the intended argument list, for all paths |
| `RingBuffer.Buffer.GetAll` | src/lib/ring-buffer.ts:73-97 | exactly the last `capacity` pushes since the last clear, oldest first |
| `RingBuffer.Buffer.GetRecent` | src/lib/ring-buffer.ts:56-68 | the newest `n` of them, filtered by time |
| `RingBuffer.Buffer.Size` | src/lib/ring-buffer.ts:111-113 | how many those are |
| `RingBuffer.Buffer.Push` | src/lib/ring-buffer.ts:41-51 | extends the history by the stamped item |
| `RingBuffer.Buffer.Clear` | src/lib/ring-buffer.ts:102-106 | starts a new history |
| `RingBuffer.Create` | src/lib/ring-buffer.ts:31-36 | gives an empty buffer, or none when the capacity is not positive |

## Left out

- RecoveryTrace.TraceSafety: an eligibility check is any answer or an error, because the policy behind it is a list of independent tests over database rows.
- RecoveryTrace.NextStaysOnPath: the enqueueing of a crash event for the ops agent is not part of a handler's trace, because it is started without being awaited.
- QuestionCodec.DecodeOfEncode: indexes are unbounded naturals, where JavaScript numbers are exact up to 2^53 - 1; what `Number` gives for text that is not decimal digits is a parameter.
- Base64Url.DecodeInvertsEncode: padding characters are skipped like any other character outside the alphabet, which is all an encoder without padding needs.
- Postmortem.FiresOnlyAfterQuietDelay: what the callback does after it fired (reading the project, eligibility, generation) is not modelled; a cancel event that arrives then comes too late in the source too.
- QuestionBridge.SettledByDeadline: how late a timer may fire is a parameter, because the runtime promises only that it is not early.
- TokenRefresh.RotationCutsOffExactlyWhenNonePending: deleting a row together with its project or service is not modelled; it can only take tokens away.
- TokenStore.AuthService.RevokePatToken: the time of revocation and the last-used time are not modelled, because no decision reads them.
- TokenStore.AuthService.EnsureOrgMcpPatToken: a service without token storage, which fails before doing anything, is not modelled.
- OpsQueue.OpsAgentQueue.StopAgent: the wait of up to five seconds for the consumer, and the disposal of timers and subscriptions, are not modelled.
- TokenStore.ResolvesTo: the token's name, a part of the identity that nothing decides on, is not modelled.
- AgentPool.SessionPool.GetOrCreateAgent: agents are numbers; their tools, bridges and the separate recovery agent are not modelled.
- Migrations.MigrationRunner.Execute: statements are recorded, not interpreted; a failing statement is a boot that does not commit.
- The event-stream reader in `src/ipc/client.ts`: it keeps its partial data inside one callback, so it is not independent of how chunks are cut.
- Network and process input and output, OAuth, Git providers, chat clients, Docker, prompts and notifications: thin wrappers without a property of their own.
- URL blocklists, the SQL keyword filter, status aggregation and similar helpers: they would only add easy members.
