# Verified models of the coordination engines

This project models the stateful engines of the governance layer in Dafny and proves what they are for. Each file
follows one component; times, fitness values and weights are exact numbers.

| file | component | main results |
|---|---|---|
| `VectorClocks.dfy` | vector clocks and runs of several logs | `ClocksDecideCausality`: comparing clocks decides happens-before, both ways |
| `CausalEventLog.dfy` | one log, many threads | `CausalOrderIsTickOrder`: the sort by counter sum is a permutation in tick order |
| `DurableWorkflow.dfy`, `DurableEffects.dfy` | event-sourced workflow engine | `RecoverIsPlainFoldInEveryRun`: snapshot plus tail is the plain fold, under every interleaving; `FoldMeansLastWrites`: what that fold means field by field |
| `WorkflowMutex.dfy` | mkdir mutex with stale take-over | `ExclusionIffNoTakeOver` and `OutsiderBreaksInIffLate`: exactly when it keeps processes apart; `PromptHoldersExcludeEachOther` |
| `AuditLog.dfy` | hash-chained log | `TipDeterminesLog`, `AppendKeepsChainIffLastLineFits`, `TailReadIsLastEntry` |
| `ApprovalGate.dfy`, `ApprovalRuns.dfy`, `AuditCoupling.dfy` | tokens, deploy locks, atomic deploy, its two audit stores | `PreDeployAtomic` (all or nothing), `TokensAreSingleUse`, `StoresStayInStep` (exactly how long), `InsertNeverClashes` |
| `EvolutionLoop.dfy`, `EvolutionRuns.dfy`, `StaleScores.dfy` | Pareto selection with a regression cage | `RunNeverLosesGround`, `BestValueNeverFalls`, `BaselineIsCurrentMaximum`, `AcceptedIffOneGenomeTopsAll`, `SeedDecidesRollback` |
| `MembraneWalk.dfy` | payload walk with a visited set | `RefusalIsSound`, `CheckDecidesForeignnessWithinLimit`, `ShapeIsDecidedIffNoDetours`, `NearForeignDictCanPass` |
| `Leases.dfy`, `LockManagers.dfy`, `LeaseRuns.dfy` | both lease managers | `SweepsAreInvisible`, `AnswersFollowHistory`, and over whole runs `TenuresNeverOverlap`, `SupersededForever`, `CapIsNeverExceeded` |
| `RoomSlotLock.dfy` | room slots of booking channels | `SlotHistory`, `HolderChangesOnlyThroughAvailable`, and over runs `ReservationIsBookableIffUnrivalled`, `ConflictLastsIffNotReleased`, `BookedLastsIffUncontested` |
| `CellBoundary.dfy` | quotas and sliding window | `WindowNeverExceedsCap` on the pruned history |
| `Deduplication.dfy`, `LiveDeduplication.dfy` | two deduplication engines | conservation of misses; `EnginesAgree` without expiry, `EnginesAgreeIffNoLiveEviction` with it |
| `VariantSelector.dfy` | weighted buckets | `VariantShares` |
| `HotelInventory.dfy` | room inventory and bookings | `OnlyPushesMoveCapacity`, `CancelUndoesCreate` |
| `StableSorting.dfy`, `Tenures.dfy`, `Options.dfy` | shared pieces | the stable sort; lock histories |

State that the program updates in place is a class with the same fields; its methods are proved against functions on
values, and the theorems about runs are lemmas about those functions. Fresh nonces, lease tokens and booking numbers,
clock readings and random draws are parameters; hashes, signatures and encoders are function-valued constants, so every
result holds for all of them. Clocks passed to a lock manager do not go backwards.

## Where the code and its documentation disagree

The model follows the code in each case.

- The regression cage is documented to reject only a population that is strictly worse than the baseline. The code
  rejects unless one single genome reaches the baseline on every objective at once; `AcceptedIffOneGenomeTopsAll` gives
  the exact condition, and `TradeOffsCountAsRegression` a population that is rejected although it is unchanged.
- Regression is documented in terms of the objectives. A score that the seed carries under any other name enters the
  baseline as well, and when no genome of the front has it the step is rolled back (`NoneMeetsStaleName`). With one
  objective a rollback can happen if and only if the seed carries such a score (`SeedDecidesRollback`).
- A BOOKED slot is documented as terminal. Any `reserve` of it, even by its holder, turns it into CONFLICT, and so does
  a booking by another channel, and nothing else ends it (`BookedLastsIffUncontested`). From there it can be released
  and booked by the rival (`BookedSlotCanBeLost`).
- A reservation is documented to expire, and to be promoted by its own channel's `book`. A single attempt by a rival
  turns it into a conflict that no time ends, and the holder's own `book` is then recorded as a conflict with itself.
  It can be booked if and only if no other channel has tried (`ReservationIsBookableIffUnrivalled`); only a release by
  the holder ends the conflict (`ConflictLastsIffNotReleased`).
- `pre_deploy_atomic` promises that False means nothing happened. When the file append after the commit raises, it returns
  False with everything committed; `PreDeployAtomic` says exactly that through its parameter `flushes`.
- `verify_chain` is documented to detect tampering. Cutting entries off the end leaves a log that verifies
  (`ChainPrefix`); what the tip determines is `TipDeterminesLog`.
- A last line longer than the 4096-byte tail is not found, and the next entry starts again at index 0. In every run the
  table and the file are in step, and the file verifies, exactly as long as every line before the last one fits
  (`StoresStayInStep`). While such a line is the last one, a table that holds row 0 blocks every deploy
  (`OversizedLineBlocksDeploys`); after the next append deploys commit again, under numbers that the file has used
  before (`StepIsLostSilently`).
- `receive_remote` refuses an empty remote name only after the clock has been merged and ticked.
- The membrane walk is documented to treat a visited object as already validated. A container is marked before its depth
  is checked, so a foreign dictionary one edge away can pass (`NearForeignDictCanPass`). The exact condition is on the
  payload's shape: whatever the tags and the order of children, the check decides whether a foreign dictionary lies
  within the limit, if and only if no container is reached both within the limit and, on a detour, by one edge more
  (`ShapeIsDecidedIffNoDetours`). Trees of any depth qualify (`CheckDecidesTrees`).
- The workflow mutex is documented to keep two writers from interleaving. It does in exactly the runs in which no lock
  directory is taken over (`ExclusionIffNoTakeOver`), and a process outside can break in exactly while the holder is
  late (`OutsiderBreaksInIffLate`), for example after a crash (`CrashedHolderBreaksExclusion`).
- Sweeping expired leases changes no acquire, renew, is_held or list_active answer, but `release` with the token of an
  expired lease succeeds before a sweep and fails after it (`ReleaseCanTellSweep`).
- The variant selector's documentation says buckets 0 to 9998; the code uses 10,000 buckets.

## Model

| member | source | states |
|---|---|---|
| VectorClocks.VectorClock.constructor | kmo_governance/causal_event_log/causal_event_log.py:20-25 | a new clock counts only its own node, from zero |
| VectorClocks.VectorClock.Tick | kmo_governance/causal_event_log/causal_event_log.py:27-31 | only the own counter moves, by one, and the snapshot is the new clock |
| VectorClocks.VectorClock.Merge | kmo_governance/causal_event_log/causal_event_log.py:33-39 | the loop over the remote counters yields the component-wise maximum, then one own tick |
| VectorClocks.VectorClock.Compare | kmo_governance/causal_event_log/causal_event_log.py:45-64 | the scan of the occurring counters decides the component-wise order over all node names |
| CausalRuns.ClockCounts | kmo_governance/causal_event_log/causal_event_log.py:27-39 | in every run a counter never exceeds the number of its node's events so far, and an event's own counter equals it |
| CausalRuns.KnowsIffHappensBefore | kmo_governance/causal_event_log/causal_event_log.py:27-39 | an event has counted another one exactly when that one is in its causal past |
| CausalRuns.HappensBeforeIsTransitive | kmo_governance/causal_event_log/causal_event_log.py:60-64 | happens-before, built from program order and messages, is transitive |
| CausalRuns.HappensBeforeRaisesClock | kmo_governance/causal_event_log/causal_event_log.py:33-39 | along happens-before no counter ever falls |
| CausalRuns.ClocksDecideCausality | kmo_governance/causal_event_log/causal_event_log.py:45-64 | in every run: "before" iff happens-before, "after" iff the converse, "equal" iff the same event, "concurrent" iff none of these |
| CausalEventLogs.CausalEventLog.constructor | kmo_governance/causal_event_log/causal_event_log.py:96-103 | a new log is empty and owns a fresh clock |
| CausalEventLogs.CausalEventLog.AppendLocal | kmo_governance/causal_event_log/causal_event_log.py:110-121 | one tick, one new number, one event carrying the snapshot is appended |
| CausalEventLogs.CausalEventLog.ReceiveRemote | kmo_governance/causal_event_log/causal_event_log.py:123-136 | merge and number always happen; the event carries the remote name and is appended iff that name is not empty |
| CausalEventLogs.CausalEventLog.CausalOrder | kmo_governance/causal_event_log/causal_event_log.py:142-148 | without concurrent callers the causal order is the order of appending, whatever was received |
| CausalEventLogs.TickRaisesSum | kmo_governance/causal_event_log/causal_event_log.py:27-39 | tick and merge raise the counter sum strictly, whatever clock is merged |
| CausalEventLogs.NextKeepsConsistent | kmo_governance/causal_event_log/causal_event_log.py:110-136 | every thread step keeps snapshot sums strictly increasing and events appended at most once |
| CausalEventLogs.CausalOrderIsTickOrder | kmo_governance/causal_event_log/causal_event_log.py:142-148 | for all thread interleavings and remote clocks the causal order is a permutation of the log in strict tick order |
| StableSorting.SortOrders | kmo_governance/causal_event_log/causal_event_log.py:145-148 | the sort yields an ordered permutation |
| StableSorting.SortIsStable | kmo_governance/durable_execution/kmo_durable_state_machine.py:236 | elements with equal keys keep their order |
| DurableWorkflows.DurableStateMachine.constructor | kmo_governance/durable_execution/kmo_durable_state_machine.py:123-133 | existing events and snapshots are kept; a snapshot interval below one becomes one |
| DurableWorkflows.DurableStateMachine.ReadLatestSnapshot | kmo_governance/durable_execution/kmo_durable_state_machine.py:241-253 | the highest-numbered snapshot is read, and only that one: if it does not parse there is none |
| DurableWorkflows.DurableStateMachine.Recover | kmo_governance/durable_execution/kmo_durable_state_machine.py:401-421 | the loop computes the replay of newer events over the base; unknown workflows are reported |
| DurableWorkflows.CoveringSnapshotIsRecovered | kmo_governance/durable_execution/kmo_durable_state_machine.py:406-421 | a newest snapshot that covers every event of the log is returned as it is |
| DurableWorkflows.DurableStateMachine.Snapshot | kmo_governance/durable_execution/kmo_durable_state_machine.py:255-261 | the recovered run is stored under its own sequence number; nothing else changes |
| DurableWorkflows.DurableStateMachine.StartWorkflow | kmo_governance/durable_execution/kmo_durable_state_machine.py:311-336 | succeeds iff unused; the run is RUNNING in the given phase with the given data, created and updated now, number 1 |
| DurableWorkflows.DurableStateMachine.Transition | kmo_governance/durable_execution/kmo_durable_state_machine.py:338-377 | appends one event with the next number, snapshots iff the number is a multiple of the interval, returns the recovered run |
| DurableRecovery.FoldInTwoParts | kmo_governance/durable_execution/kmo_durable_state_machine.py:401-421 | folding up to a number and on from there is folding everything |
| DurableRecovery.ReplayIsFold | kmo_governance/durable_execution/kmo_durable_state_machine.py:416-421 | replaying sorted events with duplicates is folding the first-appended event of each number |
| DurableRecovery.BlankDoesNotMatter | kmo_governance/durable_execution/kmo_durable_state_machine.py:272-277 | the start event overwrites whatever blank run the replay began with |
| DurableRecovery.RecoverIsPlainFold | kmo_governance/durable_execution/kmo_durable_state_machine.py:401-421 | on a well-formed disk recovery equals the plain fold, whatever snapshots exist |
| DurableRecovery.NextSequenceFollows | kmo_governance/durable_execution/kmo_durable_state_machine.py:359-360 | on a contiguous log the next number is the number of distinct ones plus one |
| DurableRecovery.AppendKeepsInvariant | kmo_governance/durable_execution/kmo_durable_state_machine.py:359-371 | an append with a stale or fresh number keeps the numbers contiguous and every snapshot and half-done recovery good |
| DurableRecovery.NextKeepsInvariant | kmo_governance/durable_execution/kmo_durable_state_machine.py:241-261 | each file step of each process keeps the disk well-formed and every process's memory good |
| DurableRecovery.RecoverIsPlainFoldInEveryRun | kmo_governance/durable_execution/kmo_durable_state_machine.py:401-421 | at every moment of every interleaving, without any lock and with damaged snapshots, the log is contiguous and recovery is the plain fold |
| DurableRecovery.InterruptedRecoverIsPlainFold | kmo_governance/durable_execution/kmo_durable_state_machine.py:406-421 | the same for a recovery whose snapshot was read many steps before the events |
| DurableMeaning.FoldMeansLastWrites | kmo_governance/durable_execution/kmo_durable_state_machine.py:265-307 | phase, status and every data key are what the last event about them says, found by a backward scan; the sequence is the number of events |
| DurableMeaning.FoldListsRecordedEvents | kmo_governance/durable_execution/kmo_durable_state_machine.py:296-306 | unless an event writes that key itself, the fold succeeds and `__events_seen` lists exactly the recorded events in order |
| DurableEffects.RecoveredAfterNext | kmo_governance/durable_execution/kmo_durable_state_machine.py:401-421 | appending the next event and recovering applies it to the run recovered before, whatever snapshots exist |
| DurableEffects.TransitState | kmo_governance/durable_execution/kmo_durable_state_machine.py:338-377 | the caller of a transition gets the old run with the phase named in the payload, by kind of value: a non-empty text or other true value sets it, absence, null and empty values leave it; patch and status likewise |
| DurableEffects.TransitionPhase | kmo_governance/durable_execution/kmo_durable_state_machine.py:381-399 | the phase becomes the named one unless it is empty, and the patch overwrites the data key by key |
| DurableEffects.TransitionSetsPhase | kmo_governance/durable_execution/kmo_durable_state_machine.py:278-282 | for every kind of `to_phase` value whether it sets the phase |
| DurableEffects.TransitionPatches | kmo_governance/durable_execution/kmo_durable_state_machine.py:283-292 | data, times and number after a transition; each of the six status names sets its status, any other value none |
| DurableEffects.RecordedEventIsListed | kmo_governance/durable_execution/kmo_durable_state_machine.py:293-307 | the other kinds add one audit record with their own type name, or nothing, and leave phase, status and other data |
| DurableEffects.TakingSnapshotChangesNothing | kmo_governance/durable_execution/kmo_durable_state_machine.py:255-261 | after a snapshot recovery yields the same run |
| WorkflowMutex.NumberedLogLosesNothing | kmo_governance/durable_execution/kmo_durable_state_machine.py:416-421 | a log numbered 1..n in file order is folded completely |
| WorkflowMutex.LockStepsMean | kmo_governance/durable_execution/kmo_durable_state_machine.py:151-188 | what mkdir, stat, retry, take-over and removal each do to the lock directory and to the process, in every state |
| WorkflowMutex.StepKeepsExclusiveIff | kmo_governance/durable_execution/kmo_durable_state_machine.py:151-188 | a step keeps the processes apart iff it does not take over a lock directory that is still there |
| WorkflowMutex.ExclusionIffNoTakeOver | kmo_governance/durable_execution/kmo_durable_state_machine.py:151-188 | for every run: at most one process inside in every state iff no directory is ever taken over; then the file is numbered 1..n |
| WorkflowMutex.OutsiderBreaksInIffLate | kmo_governance/durable_execution/kmo_durable_state_machine.py:157-173 | while processes are apart, one outside can get in beside the holder by its next three steps iff the holder is late |
| WorkflowMutex.PromptHoldersExcludeEachOther | kmo_governance/durable_execution/kmo_durable_state_machine.py:151-188 | if every holder releases in time: no take-over, mutual exclusion, numbers 1..n in file order, no accepted transition lost |
| WorkflowMutex.CrashedHolderBreaksExclusion | kmo_governance/durable_execution/kmo_durable_state_machine.py:165-173 | a concrete run after a crash: two holders, two events with one number, the second dropped by recovery |
| AuditLogs.AuditLog.constructor | kmo_governance/approval-gate/kmo_audit_log.py:64-68 | the entries of an existing file are kept |
| AuditLogs.AuditLog.Append | kmo_governance/approval-gate/kmo_audit_log.py:96-135 | refuses iff a field is empty; else appends one entry with the given fields and time, numbered and linked after the last entry if its text is shorter than 4096, else from the start |
| AuditLogs.AuditLog.FlushEntry | kmo_governance/approval-gate/kmo_audit_log.py:221-224 | appends exactly the given entry |
| AuditLogs.AuditLog.VerifyChain | kmo_governance/approval-gate/kmo_audit_log.py:226-260 | True iff every entry has its index, is linked to its predecessor and matches its hash |
| AuditLogs.AppendKeepsChainIffLastLineFits | kmo_governance/approval-gate/kmo_audit_log.py:96-135 | appending to a verified log leaves it verified iff it was empty or its last line fits in the tail |
| AuditLogs.TipDeterminesLog | kmo_governance/approval-gate/kmo_audit_log.py:57-62 | two verified logs with one tip hash are identical, or the lemma names two entries on which the hash collides |
| AuditLogs.ChainPrefix | kmo_governance/approval-gate/kmo_audit_log.py:226-260 | every prefix of a verified log verifies, so truncation is not detected |
| AuditLogs.LastLineIsNotBlank | kmo_governance/approval-gate/kmo_audit_log.py:88-90 | the line taken has something other than white space on it; if none is taken, the text has not |
| AuditLogs.TailReadIsLastEntry | kmo_governance/approval-gate/kmo_audit_log.py:77-94 | on the bytes of the file, reading the last 4096 yields the last entry iff its line fits, and otherwise none |
| ApprovalGates.ApprovalGate.constructor | kmo_governance/approval-gate/kmo_approval_gate.py:89-129 | the rows of existing tables are kept, with any history that led to them |
| ApprovalGates.RowsHaveHistory | kmo_governance/approval-gate/kmo_approval_gate.py:105-129 | every table of lock rows acquired by now has such a history |
| ApprovalGates.ApprovalGate.RequestApproval | kmo_governance/approval-gate/kmo_approval_gate.py:149-183 | issues a genuine unused token with one new row, or changes nothing with the exact error |
| ApprovalGates.ApprovalGate.VerifyToken | kmo_governance/approval-gate/kmo_approval_gate.py:185-233 | True iff signature, resource, action, expiry match and the row is unused and unrevoked, field by field; exactly then that row alone is marked used |
| ApprovalGates.ApprovalGate.RevokeToken | kmo_governance/approval-gate/kmo_approval_gate.py:235-247 | idempotent; afterwards the nonce can no longer be consumed |
| ApprovalGates.ApprovalGate.AcquireDeployLock | kmo_governance/approval-gate/kmo_approval_gate.py:249-264 | succeeds iff the resource's row is missing or expired, that is iff its latest tenure has ended; tenures stay disjoint; a refusal changes nothing |
| ApprovalGates.ApprovalGate.ReleaseDeployLock | kmo_governance/approval-gate/kmo_approval_gate.py:266-274 | succeeds iff the row names this holder, and ends exactly that tenure |
| ApprovalGates.ApprovalGate.RequestDualApproval | kmo_governance/approval-gate/kmo_approval_gate.py:280-326 | succeeds iff three distinct authorised parties, and then the pair is approved as a whole |
| ApprovalGates.ApprovalGate.VerifyDualToken | kmo_governance/approval-gate/kmo_approval_gate.py:328-381 | decides the conditions of both tokens, each for this resource and action, and changes nothing |
| ApprovalGates.ApprovalGate.PreDeployAtomic | kmo_governance/approval-gate/kmo_approval_gate.py:383-501 | all three tables change together or not at all; exact commit condition; False after a commit iff the flush raised; tenures stay disjoint |
| ApprovalGates.CommitsMeans | kmo_governance/approval-gate/kmo_approval_gate.py:421-485 | the exact commit condition field by field: three parties, two tokens for this deploy, both fresh, a free lock, present fields, a free index |
| ApprovalGates.AfterDeployMeans | kmo_governance/approval-gate/kmo_approval_gate.py:455-485 | the exact new rows of all three tables after a commit |
| ApprovalGates.DeployEntryMeans | kmo_governance/approval-gate/kmo_approval_gate.py:478-485 | the audit row names action, resource, requester and time, and the first sixteen characters of each nonce |
| ApprovalGates.IssueThenVerify | kmo_governance/approval-gate/kmo_approval_gate.py:149-233 | a token is accepted iff asked for the resource and action it was issued for within a day, and only once |
| ApprovalGates.GrantKeepsDisjoint | kmo_governance/approval-gate/kmo_approval_gate.py:255-262 | granting a lock when no unexpired row exists keeps all tenures of each resource disjoint |
| ApprovalGates.ReleaseKeepsDisjoint | kmo_governance/approval-gate/kmo_approval_gate.py:266-274 | releasing cuts the tenure short and keeps table and history matched |
| ApprovalInterleavings.NextKeepsSingleUse | kmo_governance/approval-gate/kmo_approval_gate.py:213-247 | each statement of each caller keeps the marks equal to the facts and every consumption the first fact of its nonce |
| ApprovalInterleavings.TokensAreSingleUse | kmo_governance/approval-gate/kmo_approval_gate.py:213-274 | over every interleaving each nonce is consumed at most once across both operations and never after its revocation |
| AuditCoupling.StoresStayInStep | kmo_governance/approval-gate/kmo_approval_gate.py:478-492 | in every sequential run, table and file are in step iff every line before the last one fits in the tail read, and the file verifies iff they all do |
| AuditCoupling.IndexIsFreeIff | kmo_governance/approval-gate/kmo_audit_log.py:178-219 | while the stores are in step, the next index is free iff the last line fits, the file is empty, or there is no row 0 |
| AuditCoupling.InsertNeverClashes | kmo_governance/approval-gate/kmo_audit_log.py:178-219 | in such runs a deploy commits iff the tokens, the lock and the fields allow it and the index is free in that sense: with fitting lines the insert itself never fails |
| AuditCoupling.OversizedLineBlocksDeploys | kmo_governance/approval-gate/kmo_audit_log.py:86-94 | while a line that does not fit is the last one and row 0 exists, no deploy can commit |
| AuditCoupling.StepIsLostSilently | kmo_governance/approval-gate/kmo_audit_log.py:178-219 | a concrete run, for every hash: after the next append a deploy commits with number 1, and row 1 is not block 1 of the file |
| EvolutionLoops.ParetoFront | kmo_governance/evolution_loop/evolution_loop.py:132-139 | the loops select exactly the non-dominated members, in order |
| EvolutionLoops.RegressionCage.constructor | kmo_governance/evolution_loop/evolution_loop.py:205-222 | a new cage has no baseline |
| EvolutionLoops.RegressionCage.UpdateBaseline | kmo_governance/evolution_loop/evolution_loop.py:224-231 | each name's best becomes the largest of its old value and the genomes' scores under it, and no other name appears |
| EvolutionLoops.RegressionCage.DetectsRegression | kmo_governance/evolution_loop/evolution_loop.py:237-257 | False iff there is no baseline or some genome reaches every best minus the tolerance and twice the noise |
| EvolutionLoops.EvolutionLoop.constructor | kmo_governance/evolution_loop/evolution_loop.py:286-307 | counters start at zero with the given parts |
| EvolutionLoops.EvolutionLoop.InitializePopulation | kmo_governance/evolution_loop/evolution_loop.py:309-317 | the evaluated seed and its evaluated mutants, as many as the population size, all archived; clean iff the seed carries no score under another name |
| EvolutionLoops.EvolutionLoop.Step | kmo_governance/evolution_loop/evolution_loop.py:319-358 | returns the refilled front, or the old population iff the cage rejects; counters, archive and baseline change accordingly |
| EvolutionLoops.EvolutionLoop.CheckEigen | kmo_governance/evolution_loop/evolution_loop.py:181-189 | a violation is counted iff the noise times the number of parameters, at least one, reaches the threshold |
| EvolutionRuns.TakeStep | kmo_governance/evolution_loop/evolution_loop.py:319-358 | one step of a loop with a cage is one step of the runs below, at the cage's tolerance plus twice its noise |
| EvolutionRuns.CandidateIsFrontAndChildren | kmo_governance/evolution_loop/evolution_loop.py:327-345 | the candidate is the front in order, then evaluated children of drawn front members, one generation on and naming their parent |
| EvolutionLoops.EvaluateScores | kmo_governance/evolution_loop/evolution_loop.py:118-122 | evaluation sets the objectives' scores and nothing else |
| EvolutionLoops.FrontIsExactly | kmo_governance/evolution_loop/evolution_loop.py:124-139 | a genome is in the front iff every scored member is worse somewhere or nowhere better |
| EvolutionLoops.DominatesIsStrictOrder | kmo_governance/evolution_loop/evolution_loop.py:124-130 | dominance is irreflexive, asymmetric and transitive |
| EvolutionLoops.FrontCoversMember | kmo_governance/evolution_loop/evolution_loop.py:132-139 | every member is matched or dominated by a non-dominated one |
| EvolutionLoops.FrontIsNotEmpty | kmo_governance/evolution_loop/evolution_loop.py:329-331 | the front of a non-empty population is not empty, so the safety branch is never taken |
| EvolutionRuns.StepNeverLosesGround | kmo_governance/evolution_loop/evolution_loop.py:319-358 | one step, rolled back or not, matches or beats every old genome and keeps the population size |
| EvolutionRuns.RunNeverLosesGround | kmo_governance/evolution_loop/evolution_loop.py:319-358 | over any run every earlier genome stays matched or beaten on all objectives |
| EvolutionRuns.BestValueNeverFalls | kmo_governance/evolution_loop/evolution_loop.py:319-358 | over any run the population's best value of each objective never falls |
| EvolutionRuns.RunKeepsSize | kmo_governance/evolution_loop/evolution_loop.py:338-358 | over any run the population keeps its size |
| EvolutionRuns.BaselineIsCurrentMaximum | kmo_governance/evolution_loop/evolution_loop.py:351-358 | from the first step on the baseline is the per-objective maximum of the current population |
| EvolutionRuns.AcceptedIffOneGenomeTopsAll | kmo_governance/evolution_loop/evolution_loop.py:237-257 | a candidate is accepted iff one genome of it is at least as good as the whole current population on every objective and reaches the baseline under every other name |
| EvolutionLoops.InitialIsCleanIff | kmo_governance/evolution_loop/evolution_loop.py:309-317 | the first population is evaluated, and scored on nothing but the objectives iff the seed is |
| EvolutionRuns.CleanRunIgnoresOtherNames | kmo_governance/evolution_loop/evolution_loop.py:224-257 | from a clean first population the baseline holds the objectives alone, so nothing else counts |
| EvolutionRuns.SingleObjectiveNeverRollsBack | kmo_governance/evolution_loop/evolution_loop.py:351-358 | with one objective and a clean first population the rollback branch is never taken |
| StaleScores.SeedDecidesRollback | kmo_governance/evolution_loop/evolution_loop.py:309-358 | with one objective some objective function and draws lead to a rollback iff the seed carries a score under another name |
| EvolutionRuns.TradeOffsCountAsRegression | kmo_governance/evolution_loop/evolution_loop.py:237-257 | with two objectives an unchanged population of two trade-offs is rejected |
| MembraneWalks.MembraneCheck.constructor | df_executors/df_pilot_hotel_EU/pilot_integration.py:568-570 | a check starts with nothing visited |
| MembraneWalks.MembraneCheck.PhaseMembraneCheck | df_executors/df_pilot_hotel_EU/pilot_integration.py:555-571 | other hotels pass; for its own hotel False only if a foreign dictionary lies within 16 edges, and exactly then if the payload has no detour |
| MembraneWalks.MembraneCheck.Check | df_executors/df_pilot_hotel_EU/pilot_integration.py:573-626 | terminates on cyclic graphs, and answer and shared visited set are those of the pure walk |
| MembraneWalks.RefusalIsSound | df_executors/df_pilot_hotel_EU/pilot_integration.py:602-626 | False only if a dictionary tagged with another hotel is reachable within the edges that the depth limit leaves |
| MembraneWalks.OwnTagsPass | df_executors/df_pilot_hotel_EU/pilot_integration.py:602-612 | payloads whose dictionaries carry no tag or the hotel's own are never refused |
| MembraneWalks.ForeignTagIsRefused | df_executors/df_pilot_hotel_EU/pilot_integration.py:602-605 | a payload that is itself a dictionary with another tag is always refused |
| MembraneWalks.CheckDecidesForeignnessWithinLimit | df_executors/df_pilot_hotel_EU/pilot_integration.py:573-626 | if no container is reached both within the limit and by a simple path of exactly one edge more, True iff no foreign dictionary lies within the limit, cycles and any depth included |
| MembraneWalks.ShapeIsDecidedIffNoDetours | df_executors/df_pilot_hotel_EU/pilot_integration.py:573-626 | that condition is exact: all payloads with the same containers and edges are decided iff it holds |
| MembraneWalks.DetourIsMissed | df_executors/df_pilot_hotel_EU/pilot_integration.py:588-596 | for every shape with such a detour, a payload of that shape in which a foreign dictionary within the limit passes |
| MembraneWalks.CheckDecidesEvenPaths | df_executors/df_pilot_hotel_EU/pilot_integration.py:573-626 | the check decides wherever all simple paths to a container have one length |
| MembraneWalks.CheckDecidesTrees | df_executors/df_pilot_hotel_EU/pilot_integration.py:573-626 | the check decides every payload in which each container has at most one parent and the root none, however deep |
| MembraneWalks.CheckDecidesForeignness | df_executors/df_pilot_hotel_EU/pilot_integration.py:573-626 | if no simple path exceeds the limit, True iff no foreign dictionary is reachable at all |
| MembraneWalks.NearForeignDictCanPass | df_executors/df_pilot_hotel_EU/pilot_integration.py:588-596 | for every limit a payload in which a foreign dictionary one edge away passes |
| LockManagers.LeaseTable.constructor | kmo_governance/distributed_lock_manager/distributed_lock_manager.py:153-161 | a new manager holds no lease |
| LockManagers.LeaseTable.Acquire | kmo_governance/distributed_lock_manager/distributed_lock_manager.py:165-218 | grants iff no unexpired lease and returns the stored lease, else names its holder and changes nothing; table and history of tenures stay matched |
| LockManagers.LeaseTable.AcquireCapped | kmo_governance/graphity_distributed_lock/graphity_distributed_lock.py:228-312 | the same with the inline sweep at the cap and the error when all leases are unexpired |
| LockManagers.LeaseTable.Renew | kmo_governance/distributed_lock_manager/distributed_lock_manager.py:220-276 | extends the running tenure of the right token from now, drops an expired lease, else changes nothing |
| LockManagers.LeaseTable.Release | kmo_governance/distributed_lock_manager/distributed_lock_manager.py:278-308 | the right token ends its tenure; anything else is refused without a change |
| LockManagers.LeaseTable.ForceRelease | kmo_governance/distributed_lock_manager/distributed_lock_manager.py:310-329 | ends the tenure without a token |
| LockManagers.LeaseTable.SweepExpired | kmo_governance/distributed_lock_manager/distributed_lock_manager.py:355-364 | removes exactly the expired leases and counts them; the history does not change |
| LockManagers.LeaseTable.IsHeldNow | kmo_governance/distributed_lock_manager/distributed_lock_manager.py:333-341 | True iff an unexpired lease exists |
| LockManagers.LeaseTable.ListActive | kmo_governance/distributed_lock_manager/distributed_lock_manager.py:366-370 | lists exactly the unexpired leases |
| Leases.SweepsAreInvisible | kmo_governance/distributed_lock_manager/distributed_lock_manager.py:355-370 | for all runs of either manager, sweeps inserted anywhere change no acquire, renew, is_held or list_active answer, nor the error of the cap |
| Leases.SweepsLeaveNoTrace | kmo_governance/distributed_lock_manager/distributed_lock_manager.py:165-370 | after any run of either manager the next acquire, renewal, question or listing is answered as if the run's sweeps had not happened |
| Leases.ReleaseCanTellSweep | kmo_governance/distributed_lock_manager/distributed_lock_manager.py:278-308 | a sweep changes a release's answer iff its token is that of an expired lease still in the table |
| Leases.OpCannotTellApart | kmo_governance/distributed_lock_manager/distributed_lock_manager.py:165-370 | tables within the cap with the same unexpired leases answer alike and stay alike under every operation of either manager |
| Leases.CapIsKept | kmo_governance/graphity_distributed_lock/graphity_distributed_lock.py:276-303 | the cap is never exceeded, and the error comes iff that many other leases are all unexpired |
| Leases.CappedAcquireIsAcquire | kmo_governance/graphity_distributed_lock/graphity_distributed_lock.py:228-312 | unless it raises, the capped acquire cannot be told from the plain one |
| Leases.GrantKeepsTracks | kmo_governance/distributed_lock_manager/distributed_lock_manager.py:189-211 | a grant keeps the tenures of each lock free of overlap and their tokens distinct |
| Leases.RenewKeepsTracks | kmo_governance/distributed_lock_manager/distributed_lock_manager.py:261-269 | a renewal moves only the end of the running tenure and keeps them free of overlap |
| Leases.ReleaseKeepsTracks | kmo_governance/distributed_lock_manager/distributed_lock_manager.py:302-317 | a release cuts the tenure short and keeps table and history matched |
| Leases.SupersededTokenIsPowerless | kmo_governance/distributed_lock_manager/distributed_lock_manager.py:245-301 | in every reachable state a token with a later tenure on its lock can neither renew nor release |
| Leases.AnswersFollowHistory | kmo_governance/distributed_lock_manager/distributed_lock_manager.py:188-341 | held iff the latest tenure runs, acquirable iff not, renewable iff it runs under that token; exact condition for release |
| LeaseRuns.OpKeepsGood | kmo_governance/distributed_lock_manager/distributed_lock_manager.py:165-370 | every operation of either manager keeps the table matched to the history of tenures |
| LeaseRuns.TenuresNeverOverlap | kmo_governance/distributed_lock_manager/distributed_lock_manager.py:188-276 | in every run the tenures of different tokens on one lock are disjoint in time |
| LeaseRuns.SupersededForever | kmo_governance/distributed_lock_manager/distributed_lock_manager.py:245-301 | in every run, once a lock was acquired under another token, the old one never renews or releases it again |
| LeaseRuns.CapIsNeverExceeded | kmo_governance/graphity_distributed_lock/graphity_distributed_lock.py:276-303 | in every run of the capped manager there are never more leases than the cap |
| RoomSlotLocks.HeyLouDistributedLock.constructor | kmo_governance/heylou_distributed_lock/heylou_distributed_lock.py:77-88 | records and trail start empty |
| RoomSlotLocks.HeyLouDistributedLock.StoreRecord | kmo_governance/heylou_distributed_lock/heylou_distributed_lock.py:287-290 | every stored record also ends the trail |
| RoomSlotLocks.HeyLouDistributedLock.CurrentRecord | kmo_governance/heylou_distributed_lock/heylou_distributed_lock.py:238-268 | a stale reservation is first recorded as available, under the next version |
| RoomSlotLocks.HeyLouDistributedLock.Reserve | kmo_governance/heylou_distributed_lock/heylou_distributed_lock.py:94-126 | reserves a takeable slot until the time to live from now, or records a conflict that keeps the holder; the trail stays valid |
| RoomSlotLocks.HeyLouDistributedLock.Book | kmo_governance/heylou_distributed_lock/heylou_distributed_lock.py:128-161 | books a takeable slot, is idempotent for the holder, else records a conflict; the trail stays valid |
| RoomSlotLocks.HeyLouDistributedLock.Release | kmo_governance/heylou_distributed_lock/heylou_distributed_lock.py:163-195 | frees a reserved or conflicted slot for its holder only; a booked one never |
| RoomSlotLocks.HeyLouDistributedLock.SweepExpired | kmo_governance/heylou_distributed_lock/heylou_distributed_lock.py:212-224 | frees exactly the stale reservations, one trail record each |
| RoomSlotLocks.ReserveMeans | kmo_governance/heylou_distributed_lock/heylou_distributed_lock.py:94-126 | exactly an open slot or the channel's own running reservation is reserved, until `ttl` from now; all else is a conflict with the holder kept |
| RoomSlotLocks.BookMeans | kmo_governance/heylou_distributed_lock/heylou_distributed_lock.py:128-161 | exactly the same slots are booked; the holder's second booking changes nothing; all else is a conflict |
| RoomSlotLocks.ReleaseMeans | kmo_governance/heylou_distributed_lock/heylou_distributed_lock.py:163-195 | exactly the holder of a running reservation or of a conflict frees the slot |
| RoomSlotLocks.SlotHistory | kmo_governance/heylou_distributed_lock/heylou_distributed_lock.py:238-290 | per slot the trail has versions 1,2,3,... with consistent records, and neighbours change holder only through AVAILABLE |
| RoomSlotLocks.StoredIsTrail | kmo_governance/heylou_distributed_lock/heylou_distributed_lock.py:287-290 | storing a continuing record keeps the map equal to the replay of the trail |
| RoomSlotLocks.HolderChangesOnlyThroughAvailable | kmo_governance/heylou_distributed_lock/heylou_distributed_lock.py:94-195 | between two records without an AVAILABLE one the holder is the same |
| RoomSlotLocks.ReservationIsBookableIffUnrivalled | kmo_governance/heylou_distributed_lock/heylou_distributed_lock.py:94-195 | over every run before the expiry, the holder can book iff no other channel tried in between; else its booking is a conflict with itself; unrivalled, a rival gets the slot exactly from the expiry on |
| RoomSlotLocks.ReservationLastsItsTime | kmo_governance/heylou_distributed_lock/heylou_distributed_lock.py:94-126 | over every run, a reservation that nobody touches turns a rival away iff it comes before the time to live has passed |
| RoomSlotLocks.ConflictLastsIffNotReleased | kmo_governance/heylou_distributed_lock/heylou_distributed_lock.py:94-195 | over every run a conflict lasts iff its holder does not release the slot |
| RoomSlotLocks.BookedLastsIffUncontested | kmo_governance/heylou_distributed_lock/heylou_distributed_lock.py:68-161 | over every run a booked slot stays booked iff nobody reserves it and no other channel books it |
| RoomSlotLocks.BookedSurvivesIff | kmo_governance/heylou_distributed_lock/heylou_distributed_lock.py:64-74 | each operation keeps a booked slot booked iff it is not one of those, and turns it into a conflict iff it is; a release is refused without a change |
| RoomSlotLocks.BookedSlotCanBeLost | kmo_governance/heylou_distributed_lock/heylou_distributed_lock.py:68-74 | through a rival's conflict a booked slot can end up booked by the rival |
| CellBoundaries.CellBoundaryManager.constructor | kmo_governance/cell_boundary/cell_boundary.py:149-168 | all counters start at zero, not exhausted |
| CellBoundaries.CellBoundaryManager.TriggerApoptose | kmo_governance/cell_boundary/cell_boundary.py:342-354 | the latch is set and the callback runs once; later calls change nothing |
| CellBoundaries.CellBoundaryManager.ConsumeTokens | kmo_governance/cell_boundary/cell_boundary.py:204-224 | exact outcome; the budget is never exceeded; nothing moves after exhaustion |
| CellBoundaries.CellBoundaryManager.ConsumeCpu | kmo_governance/cell_boundary/cell_boundary.py:226-241 | the same for CPU seconds |
| CellBoundaries.CellBoundaryManager.ConsumeMemory | kmo_governance/cell_boundary/cell_boundary.py:243-258 | the same for memory |
| CellBoundaries.CellBoundaryManager.RecordIoCall | kmo_governance/cell_boundary/cell_boundary.py:260-285 | accepted iff the accepted calls of the last closed minute, pruned or not, are fewer than the cap; frozen after exhaustion |
| CellBoundaries.PruneKeepsRecentPart | kmo_governance/cell_boundary/cell_boundary.py:268-271 | pruning drops only calls that are too old to matter |
| CellBoundaries.PrunedIsLastMinute | kmo_governance/cell_boundary/cell_boundary.py:268-271 | what remains after pruning is exactly the accepted calls of the last minute |
| CellBoundaries.AcceptKeepsSpaced | kmo_governance/cell_boundary/cell_boundary.py:272-285 | an accepted call keeps any cap+1 consecutive calls more than a window apart |
| CellBoundaries.WindowNeverExceedsCap | kmo_governance/cell_boundary/cell_boundary.py:260-285 | every closed 60-second interval contains at most the permitted number of accepted calls |
| CellBoundaries.RateLimitHolds | kmo_governance/cell_boundary/cell_boundary.py:260-285 | the same for every state that a manager reaches |
| Deduplication.DeduplicationEngine.constructor | kmo_governance/deduplication_engine/deduplication_engine.py:119-137 | a new engine is empty with zero counters |
| Deduplication.DeduplicationEngine.Check | kmo_governance/deduplication_engine/deduplication_engine.py:145-224 | duplicate iff live; counters exact; misses = live + purged + evicted + forced, and live never exceeds the limit |
| Deduplication.DeduplicationEngine.EvictIfNeeded | kmo_governance/deduplication_engine/deduplication_engine.py:226-242 | at the limit one record with the oldest access goes, below it none |
| Deduplication.DeduplicationEngine.ForceExpire | kmo_governance/deduplication_engine/deduplication_engine.py:244-255 | removes exactly the given record and keeps the conservation law |
| Deduplication.DeduplicationEngine.CleanupExpired | kmo_governance/deduplication_engine/deduplication_engine.py:257-270 | removes and counts exactly the expired records and keeps the conservation law |
| Deduplication.GraphityDedupEngine.constructor | kmo_governance/graphity_dedup_engine/graphity_dedup_engine.py:33-48 | a new engine is empty |
| Deduplication.GraphityDedupEngine.CheckAndRegister | kmo_governance/graphity_dedup_engine/graphity_dedup_engine.py:50-90 | sweep, then move a hit to the end or append and trim a miss |
| Deduplication.GraphityDedupEngine.EvictLru | kmo_governance/graphity_dedup_engine/graphity_dedup_engine.py:111-113 | the loop keeps exactly the last entries up to the limit |
| Deduplication.HitKeepsAgree | kmo_governance/deduplication_engine/deduplication_engine.py:166-177 | after a hit, order in the dict is still order of access |
| Deduplication.EldestIsFirst | kmo_governance/graphity_dedup_engine/graphity_dedup_engine.py:111-113 | the record with the oldest access is the first entry of the dict |
| Deduplication.RequestKeepsAgree | kmo_governance/graphity_dedup_engine/graphity_dedup_engine.py:62-90 | one request on both engines, nothing expired: same verdict, same keys, orders still matched |
| Deduplication.EnginesAgree | kmo_governance/deduplication_engine/deduplication_engine.py:145-242 | on every run of any length with a strictly increasing clock in which no request finds an expired entry, both engines give the same verdicts and keep the same keys |
| Deduplication.ExpiryMakesEnginesDiffer | kmo_governance/graphity_dedup_engine/graphity_dedup_engine.py:92-104 | once something expires they can differ: a concrete state and two requests |
| LiveDeduplication.LiveAgreeLater | kmo_governance/graphity_dedup_engine/graphity_dedup_engine.py:92-104 | while time passes, the parts of both engines that have not expired go on agreeing |
| LiveDeduplication.LiveKeysAgreeIff | kmo_governance/deduplication_engine/deduplication_engine.py:163-242 | one request, expiry included: the verdicts are the same, and afterwards the unexpired keys are iff it is not a miss at the limit that evicts a live record while some record has expired |
| LiveDeduplication.EnginesAgreeIffNoLiveEviction | kmo_governance/deduplication_engine/deduplication_engine.py:145-242 | over every run with a strictly increasing clock, the unexpired keys are the same after each request iff no request does that |
| LiveDeduplication.VerdictsAgreeUntilLiveEviction | kmo_governance/graphity_dedup_engine/graphity_dedup_engine.py:62-104 | up to and including the first request that does, the verdicts are the same |
| VariantSelection.ABTestVariantSelector.constructor | kmo_governance/feature_flag_engine/feature_flag_engine.py:330-335 | nothing is registered |
| VariantSelection.ABTestVariantSelector.RegisterVariants | kmo_governance/feature_flag_engine/feature_flag_engine.py:337-369 | accepts iff the lists fit, no weight is negative and one is positive; stores weights that sum to one and keeps known counters, new ones at zero |
| VariantSelection.ABTestVariantSelector.SelectVariant | kmo_governance/feature_flag_engine/feature_flag_engine.py:371-395 | the loop picks the variant of the bucket of flag and user, `_anonymous` for an empty one, and raises that variant's counter by one and no other |
| VariantSelection.NormalizeIsNormalized | kmo_governance/feature_flag_engine/feature_flag_engine.py:355-361 | dividing by the sum yields non-negative weights that sum to one |
| VariantSelection.VariantShares | kmo_governance/feature_flag_engine/feature_flag_engine.py:385-393 | each variant gets one contiguous range of the 10,000 buckets, within one bucket of its share, none for weight zero; the fallback is never used |
| HotelInventories.HotelFriendClient.constructor | kmo_governance/hotelfriend_pms_adapter/hotelfriend_pms_adapter.py:58-62 | any sound inventory without bookings is a valid start |
| HotelInventories.HotelFriendClient.CreateBooking | kmo_governance/hotelfriend_pms_adapter/hotelfriend_pms_adapter.py:87-131 | succeeds iff every night has room, reports the first night without; a failure changes nothing; free plus booked rooms are unchanged |
| HotelInventories.HotelFriendClient.TakeRooms | kmo_governance/hotelfriend_pms_adapter/hotelfriend_pms_adapter.py:113-130 | each night from check-in to the day before check-out loses exactly the rooms, no other date or room type changes |
| HotelInventories.HotelFriendClient.FindLackingNight | kmo_governance/hotelfriend_pms_adapter/hotelfriend_pms_adapter.py:108-111 | finds the first night with too few rooms, none iff every night has enough |
| HotelInventories.HotelFriendClient.BookingErrorMeans | kmo_governance/hotelfriend_pms_adapter/hotelfriend_pms_adapter.py:203-239 | which error each malformed request gets, cause by cause |
| HotelInventories.CancelReturnsNights | kmo_governance/hotelfriend_pms_adapter/hotelfriend_pms_adapter.py:147-151 | each night gets exactly its rooms back; the booking stays, cancelled |
| HotelInventories.HotelFriendClient.CancelBooking | kmo_governance/hotelfriend_pms_adapter/hotelfriend_pms_adapter.py:133-152 | succeeds iff confirmed; free plus booked rooms are unchanged |
| HotelInventories.HotelFriendClient.PushInventory | kmo_governance/hotelfriend_pms_adapter/hotelfriend_pms_adapter.py:165-185 | sets exactly the pushed dates and moves the capacity by exactly the difference |
| HotelInventories.HotelFriendClient.ShiftNights | kmo_governance/hotelfriend_pms_adapter/hotelfriend_pms_adapter.py:263-270 | the loop changes exactly the nights from check-in to the day before check-out |
| HotelInventories.CreateConserves | kmo_governance/hotelfriend_pms_adapter/hotelfriend_pms_adapter.py:108-130 | creating a booking keeps the inventory non-negative and free plus booked rooms equal, for all room types and dates |
| HotelInventories.CancelConserves | kmo_governance/hotelfriend_pms_adapter/hotelfriend_pms_adapter.py:147-151 | the same for cancelling |
| HotelInventories.CancelUndoesCreate | kmo_governance/hotelfriend_pms_adapter/hotelfriend_pms_adapter.py:133-152 | cancelling right after creating restores the whole inventory exactly |
| HotelInventories.OnlyPushesMoveCapacity | kmo_governance/hotelfriend_pms_adapter/hotelfriend_pms_adapter.py:87-185 | over every run, capacity is the initial one plus what pushes moved, and inventory is never negative |

## Left out

- Files, SQLite, JSON text, fsync and atomic rename: a file is the sequence of its records, a table a map, a statement or transaction one step.
- Torn log lines and crashes between an append and its line end: a torn line would swallow the next one.
- SHA-256, HMAC and md5: arbitrary functions; where a collision matters the lemma names it.
- `Event` actors, correlation ids and workflow ids: they are carried along and never read; one workflow is modelled.
- `get_history`, `get_state`, `get_snapshot`, statistics and other read-only views.
- Argument checks that raise `ValueError` in the lease managers and the room-slot lock (empty names, non-positive times to live), and the order in which `list_active` lists.
- WorkflowRun and Genome are values: aliasing between a run and an event's payload, and between the population and the archive, is not captured.
- Thread locks inside one process, where a method runs under the lock from start to end.
- Floating-point rounding: times, weights, scores and quotas are exact numbers.
- Objective functions that answer differently for the same parameters, and the Gaussian, flip and swap operators: a mutant has arbitrary parameters.
- Genomes scored on some of the objectives only, for which dominance raises an error.
- An archive passed in while still empty is replaced by a new one, because it counts as false; the archive here belongs to the loop, and its index by generation is not modelled.
- The mutex's best-effort removal of the pid file, and clocks that differ between processes.
- Hotel tags that are not strings, instances whose attribute dictionary changes during the walk.
- ISO dates in non-canonical spelling as inventory keys, non-integer quantities, and the switch to a real API.
- `PercentageRollout`, `ContextualRule`, `FlagRule`: short branchings over one hash or one comparison.
- Schema validation and the tenant check of the cell boundary: a single call or comparison.
- Homeostasis, throttle, chaos, failover, circuit-breaker, voter and health modules: short branchings or one-line invariants; engines built on exponentials or Hill functions.
- The other property-management, booking and CRM adapters, the copy of the deduplication engine, the demo application, reports and gateways.
- ApprovalGates.ApprovalGate.VerifyToken: one caller at a time; the interleaving of its SELECT and UPDATE is `ApprovalInterleavings.TokensAreSingleUse`.
- DurableWorkflows.DurableStateMachine.Transition: what happens while the lock is held; the lock itself is `WorkflowMutex`, and writers without it are `DurableRecovery`.
- Deduplication.DeduplicationEngine.EvictIfNeeded: among records with equal oldest access time any may go, where the code takes the first inserted.
- AuditCoupling.StoresStayInStep: sequential runs without crashes between the commit and the file append.
