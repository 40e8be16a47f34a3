# Verified model of the agent guard SDK

This project models the decision logic of the Stellar agent guard SDK in Dafny and proves properties of it. The SDK
wraps an on-chain spend guard: it keeps a dead-man heartbeat going, checks calls before they are sent, submits them
with bounded retries, and encodes, compares and validates the guard's policy. The decisions with most state, branching
or arithmetic are modelled; simulation, signing, broadcast, the ledger and the clock answer arbitrarily. What is not
modelled is listed at the end.

`dafny verify dfyconfig.toml` checks the whole project.

## How it is organised

Code that mutates state in TypeScript is a class or a method with loops here, and each such method is proved equal to
a specification function; the properties are lemmas about those functions, over every input or every run.

- **Heartbeat** (`Heartbeat`, `HeartbeatFates`, `HeartbeatSafety`, `HeartbeatGrace`): the cadence loop with its
  arithmetic slot skipping, same-second deduplication and inner retries, as turns over an arbitrary stream of clock
  readings and outcomes; then what becomes of each slot; slot conservation and the beat rate; and how far apart accepted beats start, and exactly when that stays within the
  dead-man grace window.
- **Pre-flight** (`Semaphore`, `SimulationSlots`, `VerdictCache`, `CacheRecency`, `CheckInterleaving`, `CacheUse`,
  `BatchStaging`): the FIFO semaphore, the enforced simulations it admits, the bounded verdict cache as a map with
  insertion order, concurrent checks as interleaved atomic steps between `await`s, and batch staging.
- **Invocation** (`AccountQueue`, `SignStage`, `Invoke`, `InvokeExact`, `InvokeSafety`, `AccountInvocations`): the
  per-account queue and sequence reservation under every interleaving, the signing loop, one attempt's pipeline, the retry loop with its
  two budgets, fee bumps, backoff and one shared deadline, and the invocations of one account going through its queue.
- **Policies** (`Policy`, `PolicyDiff`, `PolicyDiffExact`, `PolicyDiffOrder`, `PolicyPatch`, `PolicyDetermined`,
  `PolicyMirror`, `PolicyValidators`, `GuardPolicyValidator`, `PolicyValidatorsExact`, `PolicyValidatorsAgree`,
  `PolicySchema`, `PolicySchemaValues`, `PolicySchemaValid`, `PolicySchemaReport`, `PolicyScVal`, `PolicyScValExact`,
  `PolicyScValRoundTrip`, `PolicyScValAccepts`, `PolicyJson`, `PolicyJsonRoundTrip`): the set-semantics diff and what it
  does and does not say, the two validators, each with its own loops and its own sets of what it has seen, the
  JSON-Schema interpreter, and the ScVal and JSON codecs.
- **Exact arithmetic and framing** (`Arithmetic`, `Decimal`, `Fee`, `Hex`, `Lex`, `Framing`): base-10 printing and
  parsing, fee formatting, hex coding and byte concatenation, the lexicographic sort, and the fingerprint preimages.

## Where the code and its documentation differ

- The JSON-Schema standard lets the schema `false` reject everything; this interpreter ignores every schema that is not
  an object, so `false` accepts everything (`PolicySchema`, constructor `Loose`).
- `policyDiff` is documented to be empty exactly when two policies are equal. It compares neither a rule's `paused`
  nor `protocol_calls_per_window`, so the equality proved in `PolicyDiffExact.EmptyExactlyWhenSame` is over the
  fields it does compare.
- A diff does not determine the newer policy: an added rule or cap is reported by its address alone
  (`PolicyDetermined.AddedContentsAreLeftOut`), and the path of a changed one names an index of the newer list, not the
  address there (`PolicyDetermined.ChangedEntryIsNotNamed`). Those two are all that is missing: two policies with the
  same diff from a third are equal if and only if they agree on them (`PolicyDetermined.SameExactly`).
- Batch staging totals the fee of the calls it keeps, so unlike the verdict the total fee may depend on the order of
  the calls (`BatchStaging.FeeDependsOnOrder`). It does not, whatever the calls cost, if and only if the transfers that
  fit under the cap one by one fit under it together (`BatchStaging.FeeOrderExactly`).
- Reserved sequences increase but need not be consecutive (`AccountQueue.SequencesMayHaveGaps`): a gap is left exactly
  where the account was fetched further on or a reservation was not sent (`AccountQueue.GapsExactly`).
- A coalesced check may be given the verdict of a run that looked at another ledger
  (`CheckInterleaving.JoinMayCrossLedger`). That happens only to a check that enters with coalescing allowed while a run
  of another ledger, one that has not thrown, is registered under its key (`CheckInterleaving.CrossesExactly`).
- The grace check asks for an interval of at most a third of the window. That is not enough for sub-second intervals:
  beats dropped as redundant in their second are not lost, yet no beat is accepted meanwhile, and an accepted interval
  of 300 ms leaves a window of one second in a punctual run that loses nothing
  (`HeartbeatGrace.RedundantBeatsLeaveTheWindow`). Prompt runs with at most k lost slots between accepted beats stay
  within the window if and only if it has room for k + 2 intervals and 999 ms (`HeartbeatGrace.GraceExactly`). The check
  does suffice for one lost slot when every wake-up leaves a full second of the interval
  (`HeartbeatGrace.GraceSafety`), but not for two (`HeartbeatGrace.TwoLostSlotsFillTheWindow`).
- The two validators agree, except that `validateGuardPolicy` takes an empty canonical guard key for no guard
  (`PolicyValidatorsAgree.AgreeExactly`); no real address has one.

## Model

| member | source | states |
|---|---|---|
| Heartbeat.Scheduler.constructor | src/heartbeat.ts:1105-1106 | a scheduler starts with its deadline at the current time, no beat accepted and no slot used |
| Heartbeat.Scheduler.SkipExpiredSlots | src/heartbeat.ts:1111-1119 | every slot due by now is consumed and counted as missed, in one arithmetic step |
| Heartbeat.Scheduler.SubmitBeat | src/heartbeat.ts:1068-1103 | the loop reaches the result of the specified submission, whose causes SubmitExactly names |
| Heartbeat.Scheduler.Iterate | src/heartbeat.ts:1121-1157 | one turn of the loop moves every field as the specification of a turn says |
| Heartbeat.Scheduler.RunLoop | src/heartbeat.ts:1121-1157 | the loop over any stream of clock readings and outcomes reaches the specified state |
| Heartbeat.OneByOneLanding | src/heartbeat.ts:1108-1119 | skipping stale slots one at a time lands on the first slot strictly after now |
| Heartbeat.ClosedFormSkip | src/heartbeat.ts:1114-1118 | the arithmetic skip equals skipping one stale slot at a time and lands strictly after now, within one interval |
| HeartbeatFates.SubmitExactly | src/heartbeat.ts:798-884 | a beat succeeds in an attempt that was allowed or reported no outcome, gives up on any other outcome but a transport failure or on the last attempt, and is tried again after a transport failure only, with nobody stopping it |
| HeartbeatFates.FatesExactly | src/heartbeat.ts:1121-1157 | in every run each slot is skipped or has its fate for exactly the reasons of the turn that took it: redundant in the second of the last accepted beat, accepted, failed or interrupted by what its attempts answered, attempt by attempt |
| HeartbeatFates.EveryWakeTakesASlot | src/heartbeat.ts:1121-1157 | every turn that wakes up unstopped takes a slot |
| HeartbeatFates.LastBeatIsLastAccepted | src/heartbeat.ts:1150-1157 | in every run lastBeatAt and lastBeatSecond are those of the last accepted slot, and unset before the first |
| HeartbeatFates.StopsExactly | src/heartbeat.ts:1121-1145 | the scheduler has stopped exactly when a wait was aborted or a beat was interrupted |
| HeartbeatFates.NextDeadline | src/heartbeat.ts:1108-1145 | after a turn the next slot is the first one, at least an interval on, beyond the readings taken on the way |
| HeartbeatSafety.SlotConservation | src/heartbeat.ts:1105-1157 | in every run slot i is due i intervals after the start, the deadline is the start plus one interval per wake-up or skipped slot, and missedBeats counts skipped slots and late beats |
| HeartbeatSafety.Accounting | src/heartbeat.ts:1105-1157 | slots minus skipped slots are the wake-ups that found the scheduler running |
| HeartbeatSafety.RunIsWellTimed | src/heartbeat.ts:1121-1157 | beats start no earlier than due and in order, with the lateness that is reported |
| HeartbeatSafety.AcceptedSecondsIncrease | src/heartbeat.ts:1130-1135 | accepted beats fall in strictly increasing wall-clock seconds |
| HeartbeatSafety.BeatRateIsBounded | src/heartbeat.ts:1105-1157 | by time t at most floor((t - start) / interval) + 1 beats have started: no catch-up burst |
| HeartbeatGrace.GapBound | src/heartbeat.ts:1121-1157 | counting every slot in between, whatever became of it, accepted beats with k slots between them start less than k + 2 intervals apart |
| HeartbeatGrace.GapByLoss | src/heartbeat.ts:1121-1157 | with lost meaning skipped, failed or interrupted, consecutive accepted beats start at most lost + 1 intervals and the lateness of the second apart, and up to 999 ms more when a beat in between was dropped as redundant |
| HeartbeatGrace.GraceExactly | src/heartbeat.ts:945-950 | all prompt runs with at most k lost slots between accepted beats and a clock reading that is never negative keep them within the grace window if and only if k + 2 intervals and 999 ms fit into it |
| HeartbeatGrace.NothingRedundant | src/heartbeat.ts:1129-1134 | no beat is dropped as redundant while every wake-up leaves a full second of the interval |
| HeartbeatGrace.GraceSafety | src/heartbeat.ts:945-950 | with the check passed and every wake-up leaving a full second of the interval, consecutive accepted beats with at most one lost slot between them start within the grace window |
| HeartbeatGrace.RedundantBeatsLeaveTheWindow | src/heartbeat.ts:1129-1134 | an interval of 300 ms passes the check for a window of one second, and a punctual run that loses nothing leaves the window |
| HeartbeatGrace.TwoLostSlotsFillTheWindow | src/heartbeat.ts:945-950 | at an interval of exactly a third of the window a punctual run with two refused beats leaves a gap of the whole window |
| Semaphore.Semaphore.constructor | src/semaphore.ts:11-16 | all slots free, nobody waiting |
| Semaphore.Semaphore.Acquire | src/semaphore.ts:35-58 | a caller gives up, takes a free slot at once, or joins the tail of the queue |
| Semaphore.Semaphore.Abort | src/semaphore.ts:49-55 | a queued waiter is spliced out; a granted one is left alone |
| Semaphore.Semaphore.Release | src/semaphore.ts:60-69 | the first call hands the slot to the head of the queue or frees it; later calls do nothing |
| Semaphore.Conservation | src/semaphore.ts:35-69 | in every reachable state free plus held slots are the limit, nobody waits beside a free slot, and granted then queued tickets are the arrivals that stayed, in order |
| Semaphore.FirstComeFirstServed | src/semaphore.ts:56-66 | a queued ticket is served only after every earlier one that did not withdraw |
| Semaphore.WithdrawnNeverHolds | src/semaphore.ts:49-55 | an aborted waiter never holds a slot, whatever happens later |
| Semaphore.ReleaseIsIdempotent | src/semaphore.ts:60-69 | releasing twice is releasing once |
| SimulationSlots.SimulationsAreBounded | src/preflight.ts:962-1024 | however checks interleave, simulations in flight hold slots, never exceed the limit, and number at most two per slot |
| VerdictCache.Interceptor.constructor | src/preflight.ts:632-673 | an empty cache and zero counters |
| VerdictCache.Interceptor.StoreCacheEntry | src/preflight.ts:714-735 | the new entry is cached, in place of the old one of its key; the oldest entries are evicted until it fits, and none without a limit |
| VerdictCache.Interceptor.PurgeStale | src/preflight.ts:797-800 | exactly the entries of another ledger or past their expiry are removed, and the rest keep their order |
| VerdictCache.Interceptor.Consult | src/preflight.ts:879-903 | exactly a verdict cached under the key, for this ledger and still alive, is served; a stale entry of the key and nothing else is deleted, and hits and misses are counted |
| VerdictCache.Interceptor.TouchEntry | src/preflight.ts:700-704 | in a bounded cache a hit becomes the most recent entry |
| VerdictCache.Interceptor.Invalidate | src/preflight.ts:813-831 | every entry, or exactly those under a call's prefix, is removed and counted |
| VerdictCache.PurgeContents | src/preflight.ts:797-800 | the purge keeps exactly the fresh entries and the distinctness of keys |
| VerdictCache.DeleteAt | src/preflight.ts:719-725 | deleting the key of an entry removes that entry and no other |
| CacheRecency.LruRefinement | src/preflight.ts:700-735 | after any hits and stores the keys in map order are the n most recently used distinct keys |
| CacheRecency.HoldsLastStored | src/preflight.ts:714-735 | every cached verdict is the last one stored under its key |
| CacheRecency.LargerHoldsMore | src/preflight.ts:714-735 | under the same use a larger cache holds every key a smaller one holds, in the same order |
| CheckInterleaving.PrefixSelectsCall | src/preflight.ts:821-827 | with fixed-length fingerprints a call's prefix matches exactly that call's keys |
| CheckInterleaving.KeyDeterminesCall | src/preflight.ts:805 | equal keys mean equal call fingerprint and revision token |
| CheckInterleaving.InvalidateRemovesOneCall | src/preflight.ts:813-831 | invalidating a call keeps exactly the entries of every other call |
| CheckInterleaving.HitFreshness | src/preflight.ts:759-903 | over every interleaving a served verdict is decisive, was reached for the same call, configuration and token, carries the ledger this check saw, all by the recorded context of the run that reached it, whose ledger lookup is younger than min(TTL, 5000) ms |
| CheckInterleaving.CoalescedAnswers | src/preflight.ts:915-936 | over every interleaving a computed answer is the verdict of the run the check joined, whose key is the check's own, a run that threw answers nobody, and a shared run is registered under its key exactly until it settles itself, so a run unregisters only itself |
| CheckInterleaving.OwnRunOwnLedger | src/preflight.ts:908-913 | over every interleaving a check that waits for its own run is answered from its own ledger |
| CheckInterleaving.EnterDecides | src/preflight.ts:906-935 | which run a check waits for is settled for good when it enters: its own, unless it may share and one is registered under its key |
| CheckInterleaving.CrossesExactly | src/preflight.ts:915-935 | some continuation answers a check from another ledger if and only if it enters with coalescing allowed while a run of another ledger that has not thrown is registered under its key |
| CheckInterleaving.JoinMayCrossLedger | src/preflight.ts:917-919 | some interleaving lets a check join a run of another ledger |
| CacheUse.StepKeepsExactly | src/preflight.ts:797-903 | in a cache without a size limit an entry leaves exactly by a purge or a consultation that finds it stale, by another verdict of its key, or by an invalidation that covers its call |
| CacheUse.ServedExactly | src/preflight.ts:879-903 | over every interleaving a check that asks is served exactly the verdict cached for its key and ledger and still alive, and misses otherwise |
| CacheUse.CachedVerdictIsServed | src/preflight.ts:714-903 | over every interleaving a decisive verdict is served, for min(TTL, 5000) ms, to every later check of its key and ledger unless one of those steps dropped it |
| BatchStaging.CheckBatch | src/preflight.ts:1290-1409 | the staging loop returns the verdicts, kind and fee of the specification |
| BatchStaging.StagingClosedForm | src/preflight.ts:1305-1387 | the loop's answer is a closed form with no order and no running total |
| BatchStaging.VerdictsExactly | src/preflight.ts:1305-1387 | call by call: no transfer keeps its own verdict, an unknown snapshot makes a transfer undetermined, and otherwise it keeps its own verdict exactly when the cap is off or leaves room beside what was kept before it |
| BatchStaging.AdmissibleExactly | src/preflight.ts:1305-1387 | a batch is admissible exactly when every call is and there is no positive transfer, or the cap is known and not positive, or the known spend plus all positive transfers is within the cap |
| BatchStaging.MonotoneInSpend | src/preflight.ts:1357-1371 | lower committed spend never turns an admissible batch away |
| BatchStaging.OrderDoesNotMatter | src/preflight.ts:1305-1387 | reordering the calls never changes the kind of the answer |
| BatchStaging.FeeIsSumOverKept | src/preflight.ts:1374-1378 | the total fee is the sum over the calls kept admissible |
| BatchStaging.FeeClosedForm | src/preflight.ts:1357-1378 | while the transfers that fit under the cap alone fit together, exactly those are staged and the total fee is a sum with no order |
| BatchStaging.WithinCapFeeIgnoresOrder | src/preflight.ts:1357-1378 | reordering a batch that is not over the cap never changes its total fee |
| BatchStaging.FeeOrderExactly | src/preflight.ts:1357-1378 | whatever the calls cost, no reordering changes the total fee if and only if the transfers that fit under the cap one by one fit together |
| BatchStaging.FeeDependsOnOrder | src/preflight.ts:1357-1378 | two orders of one over-full batch with different total fees |
| AccountQueue.AccountState.constructor | src/invoke.ts:1252-1272 | an idle account with nothing reserved |
| AccountQueue.AccountState.Enqueue | src/invoke.ts:1286-1293 | a task awaits the previous tail and becomes the tail |
| AccountQueue.AccountState.Release | src/invoke.ts:1294-1299 | the end of a task releases the queue and, when it is the tail, resets it |
| AccountQueue.AccountState.ReserveNextSequence | src/invoke.ts:1311-1324 | the reservation is at least the fetched sequence, past the last one, and the fetched one when that is newer |
| AccountQueue.TasksAreSerialized | src/invoke.ts:1281-1300 | under every interleaving at most one task of an account runs, and tasks start and finish in arrival order |
| AccountQueue.QueueNeverStalls | src/invoke.ts:1286-1299 | when none runs and some wait, the longest waiting task and no other can start |
| AccountQueue.SequencesIncrease | src/invoke.ts:1311-1324 | reservations strictly increase and successive broadcasts carry strictly increasing reserved sequences |
| AccountQueue.ReservationIsFresh | src/invoke.ts:1311-1324 | a reservation is never below the fetched sequence nor at or below an earlier one |
| AccountQueue.GapsExactly | src/invoke.ts:1311-1324 | in every run a reservation is one past the one before it exactly when the account was not fetched further on, and a broadcast one past the broadcast before it exactly when, besides, no reservation in between was left unsent |
| AccountQueue.SequencesMayHaveGaps | src/invoke.ts:2054 | a run whose only broadcast skips a reserved sequence |
| AccountQueue.AccountsAreIndependent | src/invoke.ts:1259-1272 | each (server, account) pair sees exactly its own events |
| SignStage.SignRequiredAuth | src/invoke.ts:2118-2242 | one right answer per required entry, in order and none dropped; failure exactly when an entry cannot be authorized or its signer refuses, at the first such entry |
| Invoke.InvokePipeline | src/invoke.ts:1788-1985 | stage by stage an attempt has the specified outcome and leaves the specified log of enforcement, assembly and broadcast: one more broadcast exactly when it got that far, and each behind its admission; and each outcome has exactly its causes: allowed when sent and confirmed, pending when sent and unconfirmed, blocked when refused before or charged after, each retryable class by its own flag alone, timed out for one of five |
| Invoke.TraceIsSafe | src/invoke.ts:1788-1985 | an attempt broadcasts, once, exactly when the guard admitted it, it was assembled and the deadline held at both checks, and always behind that admission in the log |
| Invoke.InvokeWithQueue | src/invoke.ts:1424-1586 | the retry loop returns the specified report for every stream of attempts |
| Invoke.FullJitterDelay | src/invoke.ts:1212-1228 | the backoff is never negative and never above its exponential window |
| InvokeExact.NextAttemptExactly | src/invoke.ts:1470-1580 | the first attempt is made unless the deadline has passed, and attempt k + 1 exactly when attempt k was made and rejected for its fee with fee budget left, or for its ledger or sequence with general budget left, a sound sample and a deadline outlasting the backoff, and the deadline has not passed at the top |
| InvokeExact.EndingExactly | src/invoke.ts:1470-1582 | an invocation has each ending exactly for its causes, put in terms of its last attempt and the options; a retryable rejection is never one |
| InvokeExact.AllowedExactly | src/invoke.ts:1915-1983 | an invocation is allowed exactly when its last attempt was sent and confirmed, pending exactly when sent and unconfirmed |
| InvokeExact.FeesAndDelaysExactly | src/invoke.ts:1500-1580 | each attempt pays the bumped fee, or 100 more, after a fee rejection and the same fee otherwise; each retry records its class and waits its jittered window cut to what the deadline leaves; the reported maximum is the budget that applied |
| InvokeExact.WindowDoubles | src/invoke.ts:1212-1216 | the backoff window starts at the base delay, doubles with every attempt and stops at the maximum |
| InvokeSafety.RetryAccounting | src/invoke.ts:1424-1586 | attempts stay within max(general, fee) and maxRetries + 1, retries are numbered, delays add up, exhaustion is real, and each fee bump strictly raises the fee, which otherwise stays |
| InvokeSafety.AtMostOneMayLand | src/invoke.ts:1470-1582 | of the broadcasts in the log of an invocation at most one may have taken effect, it is the last attempt's, and the log shows the guard admitting that attempt before it |
| InvokeSafety.BroadcastsExactly | src/invoke.ts:1470-1582 | attempt k of an invocation broadcasts exactly when it was made and got through enforcement, assembly and both deadline checks |
| InvokeSafety.RebroadcastFollowsRejection | src/invoke.ts:1482-1580 | every further broadcast follows a definite retryable rejection and comes from the next attempt, itself admitted |
| InvokeSafety.DelayWithinDeadline | src/invoke.ts:1551-1579 | the backoffs of an invocation together stay within its deadline budget |
| AccountInvocations.LogInOrder | src/invoke.ts:1788-1860 | in the log of an invocation a broadcast comes next only while the attempt it belongs to stands admitted |
| AccountInvocations.TransactionsAreInSequence | src/invoke.ts:1281-1324 | over every interleaving of one account's invocations, reservations outside the queue and fetched sequences, its transactions leave invocation after invocation in the order of arrival, and each carries a reserved sequence above those of all before it |
| AccountInvocations.TransactionsFollowTheLogs | src/invoke.ts:1430-1586 | what an invocation has sent is exactly what its log has broadcast so far, and once it has finished what the whole log broadcasts |
| AccountInvocations.EffectClosesInvocation | src/invoke.ts:1430-1586 | a transaction that may have taken effect is followed only by transactions of invocations that arrived later |
| PolicyDiff.FindMissing | src/policy-diff.ts:119-136 | the first occurrences whose key the other list lacks, in order |
| PolicyDiff.SetDiff | src/policy-diff.ts:109-137 | removals then additions of keys, each once, with the index of its first occurrence |
| PolicyDiff.IndexByKey | src/policy-diff.ts:158-162 | each key maps to its first index |
| PolicyDiff.PushProtocols | src/policy-diff.ts:153-211 | removals, inner changes and additions of protocol rules, first entry per contract |
| PolicyDiff.PushWindowCaps | src/policy-diff.ts:213-267 | removals, cap changes and additions of recipient caps, first entry per recipient |
| PolicyDiff.PolicyDiff | src/policy-diff.ts:79-97 | the changes of all compared fields, in field order |
| PolicyDiffExact.EmptyExactlyWhenSame | src/policy-diff.ts:79-97 | the diff is empty exactly when scalars, address sets and first-entry-wins maps agree |
| PolicyDiffExact.AddressKeyMeaning | src/policy-diff.ts:139-142 | two entries compare equal exactly when both are valid with one canonical address or both are the same invalid text |
| PolicyDiffExact.ApplySetDiff | src/policy-diff.ts:109-137 | the removals are exactly the keys of the older list only and the additions those of the newer only, so applying both turns the one key set into the other |
| PolicyDiffOrder.DiffInOrder | src/policy-diff.ts:56-97 | the changes come in the order the fields are declared in, and in every list the removals in the older order before the additions in the newer one |
| PolicyPatch.SameMeaning | src/policy-diff.ts:60-77 | two policies have the same scalars, address sets and first-entry-wins maps exactly when the comparison finds them equal |
| PolicyPatch.PatchGivesNewer | src/policy-diff.ts:79-97 | applying the whole diff to what the older policy means gives what the newer one means, in scalars, address sets, rules with their functions and caps, once the addresses behind the indices the diff names and the content of the entries it adds are looked up in the newer one |
| PolicyPatch.PatchedPolicies | src/policy-diff.ts:79-97 | with those looked up, the policies the patch stands for are exactly those equal to the newer one |
| PolicyDetermined.AddedContentsAreLeftOut | src/policy-diff.ts:197-210 | equal diffs of unequal policies: an added rule is reported by its contract alone |
| PolicyDetermined.ChangedEntryIsNotNamed | src/policy-diff.ts:239-248 | equal diffs of unequal policies: the path of a changed cap does not say whose cap it is |
| PolicyDetermined.DiffDetermines | src/policy-diff.ts:79-97 | two policies with the same diff from a third have the same scalars and address sets, and rules and caps for the same addresses |
| PolicyDetermined.SameExactly | src/policy-diff.ts:79-97 | two policies with the same diff from a third are equal if and only if they agree on the addresses behind the indices it names and on the content of the added entries |
| PolicyDetermined.SameKeysSameUnlessAdded | src/policy-diff.ts:153-267 | when their rules and caps are moreover listed for the same addresses in the same order, they are equal if and only if the added entries have the same content |
| PolicyMirror.SwapMirrors | src/policy-diff.ts:79-97 | every change has exactly one mirror image, added for removed, in the swapped diff, and is the only one with that image |
| PolicyValidators.CheckAddressList | src/policy-schema.ts:415-453 | reports invalid, repeated and self-referencing entries one by one, in order |
| PolicyValidators.CheckFns | src/policy-schema.ts:586-620 | reports an empty list of functions, and empty and repeated function names in order |
| PolicyValidators.CheckProtocols | src/policy-schema.ts:552-622 | reports the rules of every protocol entry in order |
| PolicyValidators.EnforceCodeRules | src/policy-schema.ts:460-685 | pushes exactly the code-enforced failures, in order |
| GuardPolicyValidator.ValidateAssets | src/policy.ts:1772-1815 | reports an empty list and then the invalid, repeated and self-referencing assets in order |
| GuardPolicyValidator.ValidateProtocols | src/policy.ts:1817-1899 | reports the rules of every protocol entry and of its function names in order |
| GuardPolicyValidator.ValidateRecipients | src/policy.ts:1910-1960 | reports an empty or oversized list and then the invalid, repeated and self-referencing recipients in order, and collects their keys |
| GuardPolicyValidator.ValidateBlocked | src/policy.ts:1962-2015 | reports the address rules and the conflicts with the recipients entry by entry |
| GuardPolicyValidator.ValidateCaps | src/policy.ts:2017-2109 | reports the address rules and the amount rules of every cap entry by entry |
| GuardPolicyValidator.ValidateGuardPolicy | src/policy.ts:1662-2207 | returns exactly the failures of the hand-written validator, in order |
| PolicyValidatorsExact.ReportedExactly | src/policy.ts:1662-2207 | a rule is reported at a path exactly when a condition on the draft's own fields, the address book and the options says it is broken there, for each of the 21 rules |
| PolicyValidatorsExact.ReportedInOrder | src/policy.ts:1662-2207 | the report follows the fields, lists before their entries, entry by entry, and says nothing twice |
| PolicyValidatorsExact.ReportIsDetermined | src/policy.ts:1662-2207 | the report is the only one in this order with exactly the broken rules in it |
| PolicyValidatorsExact.CodeReportedExactly | src/policy-schema.ts:460-685 | enforceCodeRules reports a rule at a path exactly when the draft breaks it there and it is not one of the schema's |
| PolicyValidatorsAgree.SameWeight | src/policy-schema.ts:460-685 | the two validators' failures have equal weight under every additive measure that ignores the schema's own rules |
| PolicyValidatorsAgree.ValidatorsAgree | src/policy-schema.ts:460-685 | unless the guard's canonical key is empty, every code-enforced (path, rule) pair is reported equally often by both |
| PolicyValidatorsAgree.AgreeExactly | src/policy.ts:1662-2207 | all code-enforced pairs are reported equally often by both if and only if the guard's canonical key is not empty or no listed address has the empty key |
| PolicyValidatorsAgree.CodeReportsOnlyCode | src/policy-schema.ts:460-685 | enforceCodeRules reports no schema-enforced rule |
| PolicyValidatorsAgree.SamePairs | src/policy.ts:1662-2207 | enforceCodeRules reports exactly the code-enforced pairs of validateGuardPolicy |
| PolicySchema.EvaluateSchema | src/policy-schema.ts:240-383 | terminates for every schema and value and appends exactly the specified failures to the sink |
| PolicySchema.ConditionHolds | src/policy-schema.ts:386-401 | true exactly when the condition pushes nothing; no existing sink is touched |
| PolicySchema.AnyMatch | src/policy-schema.ts:352-363 | true exactly when the condition holds of some item |
| PolicySchemaValues.TypeExactly | src/policy-schema.ts:197-214 | a type keyword, of one name or several, accepts exactly the values whose shape has one of the names |
| PolicySchemaValues.IntegerExactly | src/policy-schema.ts:178-183 | a value stands for an integer exactly when it is that bigint, that safe whole number, or a text of white space around its numeral |
| PolicySchemaValues.EnumExactly | src/policy-schema.ts:271-282 | an enum lists a value exactly when it is a primitive of the same kind and content as a candidate; NaN, arrays and objects never are |
| PolicySchemaValues.LookupExactly | src/policy-schema.ts:302-316 | looking a property up gives the value of the first own property of the name, and undefined when there is none |
| PolicySchemaValid.NoFailuresExactlyWhenValid | src/policy-schema.ts:240-383 | no failure is pushed exactly when a declarative validity relation holds, for every schema, value and path |
| PolicySchemaReport.NodeReports | src/policy-schema.ts:248-382 | a node reports its own violated keywords and what the nodes it leads to report, a wrong type alone hiding the rest |
| PolicySchemaReport.FailureHasTrail | src/policy-schema.ts:240-383 | every failure names a node the evaluation reaches whose keyword the value there violates |
| PolicySchemaReport.TrailReports | src/policy-schema.ts:240-383 | whatever is violated at a node the evaluation reaches is reported |
| PolicySchemaReport.ReportIsExact | src/policy-schema.ts:240-383 | the failures are exactly the violations at reached nodes, each with its schema location, value location, keyword and rule |
| PolicySchemaValid.VerdictIgnoresPaths | src/policy-schema.ts:240-383 | the verdict does not depend on the paths passed in |
| PolicySchemaValid.ConditionsDoNotLeak | src/policy-schema.ts:386-401 | a condition influences the reported failures through its verdict alone |
| PolicyScVal.SymbolMap | src/policy.ts:643-676 | the loop reads the map of the specification and fails with its first error |
| PolicyScValExact.SymbolMapAcceptsExactly | src/policy.ts:643-676 | accepted exactly: symbol keys, strictly ascending, all expected, none required missing; the result holds each value under its name and nothing else |
| PolicyScValExact.SymbolMapFailsExactly | src/policy.ts:643-676 | the error is exactly what is wrong with the first entry out of place, or the missing field when no entry is |
| PolicyScValExact.SortedStrictly | src/policy.ts:809-817 | sorting entries with distinct keys keeps the entries and gives strictly ascending keys |
| PolicyScValExact.SortedReadsBack | src/policy.ts:809-817 | a sorted map of expected fields is accepted and every field is read back |
| PolicyScValRoundTrip.EncodedMapIsComplete | src/policy.ts:399-467 | an encoded policy has all fifteen fields in strictly ascending key order |
| PolicyScValRoundTrip.DecodeOfEncode | src/policy.ts:533-620 | decoding an encoded policy gives it back with canonical addresses and default-valued options dropped |
| PolicyScValRoundTrip.EqualEncodings | src/policy.ts:382-468 | two policies encode equally exactly when their normal forms are equal |
| PolicyScValRoundTrip.AlternativeForms | src/policy.ts:627-741 | the Some-vector, and decimal strings for any of the integers of a policy map or of its caps, decode to the same policy or fail alike |
| PolicyScValRoundTrip.DecodedIsNormal | src/policy.ts:533-620 | a decoded policy is its own normal form and is encodable exactly when its function names are symbols |
| PolicyScValRoundTrip.DecodeEncodeDecode | src/policy.ts:533-620 | whatever decodes re-encodes exactly when its function names are symbols, and decoding that changes nothing |
| PolicyScValAccepts.DecodesExactly | src/policy.ts:533-620 | a value decodes to a policy exactly when its entries show that policy: closed sorted maps, each field in its wire type or as a decimal text in range, valid addresses, defaults of the later fields left out |
| PolicyScValAccepts.WritesExactly | src/policy.ts:399-467 | the encoder writes all fifteen fields sorted, each in its own wire type and every address in canonical form |
| PolicyJson.DecodesExactly | src/policy-json.ts:115-196 | a value decodes to a policy exactly when it is a closed object of version 1 whose properties are that policy's fields, in range and of the required kind |
| PolicyJson.DecodePolicyJson | src/policy-json.ts:115-196 | the step-by-step decoder returns a policy exactly when the value describes it, and otherwise its first error |
| PolicyJsonRoundTrip.JsonRoundTrip | src/policy-json.ts:79-196 | decoding the JSON of a policy succeeds exactly when numbers are in range and addresses of the required kind, and then gives it back with an explicit `paused: false` dropped |
| PolicyJsonRoundTrip.DecodeEncodeDecode | src/policy-json.ts:115-196 | whatever decodes can be encoded and decoded again to the same policy up to an explicit `paused: false`, exactly the same when no rule says so, and its JSON is the same from then on |
| PolicyJsonRoundTrip.EqualJson | src/policy-json.ts:79-112 | two decodable policies have the same JSON exactly when they agree up to an explicit `paused: false` |
| PolicyJsonRoundTrip.EncodedFields | src/policy-json.ts:79-112 | the encoder's object passes the closed-field check and carries every field |
| Decimal.PrintParse | src/policy-json.ts:250-270 | printing and parsing a base-10 integer are inverse on every integer |
| Fee.FormatFeeIsExact | src/cost.ts:165-201 | formatFee fails exactly on negative, non-decimal and non-string input; otherwise its text denotes the fee exactly and no notation of the fee is shorter |
| Fee.AmountIsExact | src/cost.ts:165-177 | the text reads back as a canonical numeral of the amount: no bare point, no trailing fractional zero, no leading zero |
| Fee.FormatInvertsReading | src/cost.ts:150-177 | formatting what a canonical decimal text denotes gives that text |
| Fee.AmountIsShortest | src/cost.ts:150-177 | no decimal notation of the amount is shorter |
| Fee.FormatIsInjective | src/cost.ts:165-177 | different amounts print differently |
| Hex.BytesToHex | src/hash.ts:25-29 | two lower-case digits per byte, from which the bytes can be read back |
| Hex.HexToBytes | src/hash.ts:32-41 | succeeds exactly on even-length hex text and then holds the bytes it denotes |
| Hex.RenderThenParse | src/hash.ts:25-41 | parsing undoes rendering |
| Hex.ParseThenRender | src/hash.ts:25-41 | rendering undoes parsing up to letter case |
| Hex.SameBytes | src/hash.ts:32-41 | two hex texts denote the same bytes exactly when they differ in letter case only |
| Hex.ConcatBytes | src/hash.ts:54-64 | the new array holds the parts one after the other |
| Lex.SortForgetsOrder | src/preflight.ts:626 | sorting by an injective key forgets exactly the order of the elements |
| Framing.PartList.HashPart | src/preflight.ts:605-610 | an item is pushed behind its four-byte big-endian length |
| Framing.CallFingerprint | src/preflight.ts:612-618 | the fingerprint is the hex digest of the framed contract, function and arguments |
| Framing.ConfigFingerprint | src/preflight.ts:620-630 | the fingerprint is the hex digest of the framed fixed parts and sorted account signers |
| Framing.FramingIsInjective | src/preflight.ts:605-610 | framed lists of items below 2^32 bytes are equal exactly when the lists are |
| Framing.CallFramingIsInjective | src/preflight.ts:612-618 | two calls are hashed from the same bytes exactly when they are equal |
| Framing.ConfigFramingIsInjective | src/preflight.ts:620-630 | two configurations are hashed from the same bytes exactly when fixed parts agree and account signers agree as multisets |
| Framing.FingerprintIdentifiesCall | src/preflight.ts:612-618 | unless the digest collides, equal fingerprints mean equal calls |

## Left out

- RPC, XDR bytes, transaction assembly, polling and signatures: results are oracles that return anything their types
  allow; the sibling modules that perform them are not part of this model.
- SHA-256 and StrKey checksums: the digest is a parameter, an address is a text with an optional canonical key, and
  address kinds are predicates.
- Time is a whole number of milliseconds; the heartbeat's and the invocation's random samples are arbitrary, and the
  fee bump `ceil(fee * multiplier)` is an arbitrary integer, so floating-point rounding is not modelled.
- Heartbeat stop(), waitForStop and the callbacks: stopping is an event of the environment; what a submission settling
  after stop() reports is not modelled.
- Promises, timers and abort signals: an `await` is a point where other steps may run; a caller's own bound racing a
  shared run, and a fired outer timeout that leaves its queued task running, are not modelled.
- enforceCall's probe and simulation stages: one oracle answer per attempt; only the signing loop inside is modelled.
- BatchStaging.CheckBatch: takes the policy and window snapshot and each call's own verdict as given, so resolving the
  snapshot from the ledger is not modelled; `deadlineMs` is validated by the source but never enforced.
- GuardPolicyValidator.ValidateGuardPolicy: drafts whose fields have their declared types only, because on others the two
  validators differ by design; message texts are left out of every failure.
- PolicySchema.EvaluateSchema: `minLength` counts Unicode characters rather than UTF-16 code units, `minimum` and
  `minLength` are integers, and properties inherited from Object.prototype are not looked up.
- PolicySchema: the vendored policy schema itself; the interpreter is verified for every schema of its dialect.
- PolicyScVal: decoding errors carry their kind but not their path or text; the malformed drafts that
  validatePolicyForEncoding also reports (missing fields, wrong JavaScript types) cannot be written in the typed model.
- PolicyJson: parsing the JSON text (JSON.parse) is left to the caller, and errors carry no path.
- Framing: strings enter as their UTF-8 bytes, and account signers, which are ASCII, are sorted by those bytes.
- Framing.FramingIsInjective: is about items below 2^32 bytes. Longer ones would wrap their length prefix
  (`Framing.LengthBoundIsNeeded`, a remark on the framing alone: a check refuses the calls of its witness beforehand).
- AccountInvocations.TransactionsFollowTheLogs: a task ends after its whole log; a callback that throws in the middle of
  an invocation is not modelled.
- InvokeSafety.DelayWithinDeadline: needs a clock that does not run backwards and sleeps that last as long as asked.
- freezePolicy, describePolicy, decodeCheckResult, dead-man urgency, the cost pre-checker and option validation:
  mostly facts about one branch each.
- The thin wrappers around RPC, WebCrypto and the file system, and everything under scripts, examples, benches and
  tests.
