# A model of the chaos experiment framework, and what is proved of it

The framework injects faults into Kubernetes operators and takes them out again. What it
must not do is leave a fault behind, run two experiments on one operator at once, lose the
value it overwrote, or run the steps of an upgrade in the wrong order. This project models
the code that decides these things and proves when they hold, for all inputs, all runs and
all interleavings. `dafny verify dfyconfig.toml` checks everything.

## The parts

**Experiment protocol** (`ExperimentWorld`, `ProtocolInvariant`, `LocalLock`, `ApiClient`,
`LeaseLock`, `Reconciler`, `ReconcileTheorems`, `ReconcileEndings`, `ProtocolSafety`,
`ProtocolTiming`, `FaultOverlap`, `ProtocolRuns`). The world is what the API server stores - leases and experiment objects
with resource versions - plus the clock and what is known of the faults. `Enabled` says
which effects the protocol permits in which state. A worker or lock caller is a class whose
every API call first lets the others move and is then applied, refused, or applied with its
reply lost; its methods have to show that all they commit is enabled. A crash is a call
sequence that stops, so every prefix of a trace counts. `ProtocolRuns` joins the classes
with the runs of `ProtocolSafety`: what all clients record of one history, with what happens
outside, is a run (`HistoryIsRun`), and what a client sees of a run is a record as its
methods keep it (`SampledIsChained`). Safety is proved over all runs of any number of
experiments and callers. `ProtocolTiming` ties recorded times to real ones: how long a fault
is in place, and when it was reverted. Times are integer milliseconds.

**CRD mutation** (`Json`, `JsonPath`, `Strings`, `MutationPath`, `CrdMutation`,
`CrdRoundTrip`, `CrdTheorems`, `MutationTarget`). JSON values are trees and patches follow section 2 of
RFC 7396. The round trip and its interrupted variants are proved for all trees, paths and
values, with the exact condition under which they hold, as is what an injection changes and
what it leaves alone.

**Configuration drift** (`ConfigDrift`, `DriftTheorems`, `DriftOverlap`). The same kind of
retried revert over two objects, with a cut after any write and writes of others in between,
and two such drifts at a time.

**Upgrade playbooks** (`StepGraph`, `KahnPass`, `RepeatedSteps`, `Sequencer`,
`CycleBreaking`, `CycleEdges`, `EndingSorts`, `Sequence`, `Executor`, `ResumeSafety`,
`RunOutcome`). The
sequencer's loops are proved, for steps with repeated names too, against the graph they
keep; the executor's run against a function that also covers kills, failing saves and steps
that record themselves early; its safety over any sequence of runs uses the sequencer's
order.

**Matching** (`Match`, `MatchTheorems`, `Similarity`). One generic two-pass matcher, with the
two instances of the source. Scores are reals.

**Command-line lifecycle** (`Lifecycle`), **custom sections** (`Sections`,
`SectionTheorems`) and **verdicts** (`Evaluator`).

## Assumptions

- Experiment names are distinct, since a lease holder is identified by the bare name, and a
  name is used for one object only (pkg/safety/lease.go:97).
- Reads of leases and of the own experiment object are linearizable, and at most one
  reconcile per object runs at a time.
- Runs assume that the lease of an experiment past its pre-check shows a time at most 900
  seconds old, status writes included (`Timely`). This follows if the experiment last wrote
  its lease in a reconcile that began at most 900 seconds ago (`RunIfReconciledInTime`):
  Acquire and Renew put the present time on the lease, except that Acquire does not touch a
  lease its caller holds already. A reconcile asks to be repeated within 30 seconds
  (`RequeuesInTime`); that it is repeated before 900 have passed remains an assumption.
- One clock is read by all workers and lock callers. It may stand still but never goes back;
  differences between the clocks of machines are not modelled.
- The results on several runs of a playbook assume that writing the state file works (`Saves`).
  Nothing is assumed of when a step enters itself in it, or of how an attempt ends.
- RevertFault returning nil means that the fault is gone. The spec is not edited after the
  injection started, because reverts use the current spec.
- The rollback envelope is an injective wrapper: what was wrapped is what is unwrapped, and
  other strings are rejected. Rollback data stays below its size limit.
- The conversion of a lease duration to 32-bit seconds wraps around.
- In the command-line lifecycle an unbounded retry loop is run for an arbitrary number of
  retries, after which the context is cancelled; times taken by calls are not counted, and
  the waits fit in the lease if the retry interval does not exceed the recovery time.

## Where the code does not meet its own words

- A second experiment can run on an operator with the first fault still active: when a
  deletion is not finished before the lease runs out, whether its revert keeps failing
  (`DeletionAllowsOverlap`) or is not tried (`UntriedDeletionAllowsOverlap`), when an abort is
  interrupted before its revert (`InterruptedAbortAllowsOverlap`), and when the revert of an
  abort fails, after which the lock is released at once (`FailedAbortAllowsOverlap`). There
  is no other case: the first experiment has a pending deletion, or is aborted and has its
  finalizer still there or its last revert failed (`OverlapOnlyWithLingering`).
- Adding the finalizer is said to increment the generation. The model permits both.
- The sequencer announces a check for repeated names and has none; playbook validation does
  check. The sort ends if and only if no dependency of a repeated step would come out if the
  steps after that one had none (`EndsIffRepeatedWait`). It suffices, for all playbooks, that
  no repeated step has dependencies (`FreeEnds`); where no dependency is on a cycle this is
  also necessary (`EndsIff`), elsewhere not (`RepeatedCycleExample`). When it ends, the last of
  the steps of a name comes out in place of each of them (`FromIndex`), and a step with several
  dependencies, one of them repeated, can come out before another, without a warning
  (`AlwaysAfterIff`).
- Breaking a cycle drops a dependency that is on no cycle if and only if the stuck step of
  highest position does not reach the first stuck step it depends on
  (`DroppedEdgeIsOnCycleIff`); so a step can run before one it depends on though no cycle
  asks for it (`OvertakenExample`). For distinct steps in every order this is excluded if and
  only if no dependency leads out of a cycle (`DropsCycleEdgesOnlyIff`).
- A run that was killed leaves a state file without a failure, and then any step can be
  resumed at without force (`KilledThenSkipped`). So can it with a state file that can not be
  read, and even a run from the start then repeats what has passed (`CorruptFileIsSafeIff`).
- An OLM step records itself as completed after its first hop or an attempted rollback, by its
  own comment for crash recovery. If it fails or is killed after that, no run from the state
  file executes it again, and its own code for resuming between hops is not reached
  (`LeftStepIsRetriedIff`); after a kill even a plain run reports success with the upgrade
  unfinished (`PartialStepIsLost`). Success means that all steps passed if and only if there was
  no such step (`RunsKeepOrder`).
- The prefix rules of the path check cannot be reached (`ReservedPaths`).
- A CRD mutation cannot be reverted exactly if it has to create parents, or if the original
  value is null or an object with null members (`RoundTripExactly`). This leaves aside the three
  entries with which the injector marks an object: a target that has an
  `app.kubernetes.io/managed-by` label of its own loses it (`SameObjectExactly`).
- The rollback Secret keeps its flag under the data key `keyExists`; drift of a key of that
  name restores the flag (`SecretIsRestoredIff`). A second injection before the revert
  overwrites the record (`SecondInjectionLosesOriginal`). The names of rollback Secrets are not
  unique (`RollbackNamesCollide`): two drifts that share one, or one Secret, come back after
  every order of reverts only if the first had changed nothing (`BothComeBackIff`). The same
  holds of two keys of one ConfigMap (`BothConfigMapsComeBackIff`) and of two mutations of one
  custom resource (`SecondMutationHidesFirst`), whose second record replaces the first.
- The verdict depends on the order of the findings if and only if two steady-state findings
  disagree (`OrderIsIrrelevantIff`); the report takes the last one, the verdict the first.
- Injection of custom sections replaces the body of a template section without stored content
  by nothing, except when there is no stored content at all, where it keeps all bodies
  (`BodySurvivesIff`).

## Model

| member | source | states |
|---|---|---|
| ProtocolInvariant.StepKeepsInv | internal/controller/reconciler.go:298-348 | every step by anyone - status writes, finalizer writes, fault calls, lease calls, the clock, user edits and deletions - keeps the invariant: an active fault is covered by barrier and finalizer (or by a failed revert of an aborted experiment), recorded times are in order, a live experiment holds its lease |
| ProtocolInvariant.LiveLeaseIsNotExpired | pkg/safety/lease.go:182-196 | the lease of an experiment past its pre-check has not expired if it is renewed every 900 seconds |
| ProtocolInvariant.OthersStayWithinRely | internal/controller/reconciler.go:200-211 | a step of anyone else leaves to experiment e what its worker relies on between two API calls: its status, finalizer and fault, and its unexpired lease |
| ProtocolInvariant.RelyIsTransitive | internal/controller/reconciler.go:200-211 | what holds across each of two stretches of foreign steps holds across both together |
| ProtocolSafety.RunKeepsInv | internal/controller/reconciler.go:97-230 | in every state of every run with any number of experiments, interleavings, crashes and lost replies, the invariant holds |
| ProtocolSafety.AtMostOneLive | internal/controller/reconciler.go:200-230 | of the experiments on one operator, at most one is running with its injection started and is not being deleted; it is the holder of the lease |
| ProtocolSafety.OverlapOnlyDuringDeletion | internal/controller/reconciler.go:112-116 | two running experiments have faults on the same operator only if one of them is being deleted |
| ProtocolSafety.OverlapOnlyWithLingering | internal/controller/reconciler.go:661-684 | faults of two experiments, running or not, are active on one operator at once only if one of them lingers: its experiment is being deleted, or is Aborted and still has its finalizer or had its last revert fail; if one of the experiments is live, the lingering fault is the other one |
| FaultOverlap.DeletionAllowsOverlap | internal/controller/reconciler.go:607-619 | a run in which it lingers in a deletion: one whose revert keeps failing is retried without renewing the lease, which runs out and is taken over |
| FaultOverlap.UntriedDeletionAllowsOverlap | internal/controller/reconciler.go:112-116 | the same without any failed revert: nobody gets to the deletion before the lease runs out |
| FaultOverlap.InterruptedAbortAllowsOverlap | internal/controller/reconciler.go:650-656 | a run in which it lingers with its finalizer and no failed revert: the controller stops after the crash barrier of an abort, and the lease runs out |
| FaultOverlap.FailedAbortAllowsOverlap | internal/controller/reconciler.go:657-684 | a run, without a crash or an expiry, in which it lingers after a failed revert: the abort stores its status and releases the lock with the fault in place |
| FaultOverlap.Begins | internal/controller/reconciler.go:250-375 | the way of a fresh experiment from a free or expired lease to its active fault is a run of enabled steps |
| FaultOverlap.LosesLease | internal/controller/reconciler.go:607-619 | the lease of a deleted experiment whose revert failed can expire while its fault is active |
| ProtocolSafety.ActiveFaultIsCovered | internal/controller/reconciler.go:301-358 | a running experiment with an active fault is Injecting or Observing, has its finalizer and its injection start, and no recorded revert |
| ProtocolSafety.FaultOutlivesOnlyFailedRevert | internal/controller/reconciler.go:127-135 | an object vanishes or loses its finalizer with its fault active only if it was aborted and its last revert failed; a Complete experiment has no active fault |
| ProtocolSafety.InjectedAtMostOnce | internal/controller/reconciler.go:301-316 | InjectFault is called at most once for each experiment, whatever crashes and failed writes happen |
| ProtocolSafety.StepMovesPhaseForward | internal/controller/reconciler.go:640-675 | no step moves a persisted phase backwards, leaves a terminal phase, or persists Evaluating |
| ProtocolSafety.PhasesMoveForward | internal/controller/reconciler.go:118-186 | over any stretch of a run the persisted phase never moves backwards; Complete and Aborted are never left |
| ProtocolSafety.NeverEvaluating | internal/controller/reconciler.go:534-539 | Evaluating is never persisted |
| ProtocolSafety.CompleteKeptItsTimes | internal/controller/reconciler.go:382-540 | by its recorded times, which ProtocolTiming ties to the real ones, a Complete experiment kept its fault for the TTL (else the recovery timeout), waited a full recovery timeout before its post-check, ended after that began, and has no active fault |
| ProtocolTiming.StartIsTrue | internal/controller/reconciler.go:318-358 | at every injection the recorded start lies between the beginning of the reconcile that injects and the injection |
| ProtocolTiming.RevertsWhenDue | internal/controller/reconciler.go:411-461 | no attempt to revert the fault of an experiment that completes comes before it is due by its recorded start |
| ProtocolTiming.FaultKeepsItsTime | internal/controller/reconciler.go:318-461 | no attempt to revert the fault of an experiment that completes comes earlier than the deadline after the beginning of the reconcile that injected it, by the real clock |
| ProtocolTiming.FaultStaysUntilDue | internal/controller/reconciler.go:318-461 | until then the fault is in place in every state of the run |
| ProtocolTiming.RecordedRevertIsReal | internal/controller/reconciler.go:458-477 | a recorded revert time lies between a revert that succeeded in the same reconcile and the write of that time, and from that write on the fault is gone |
| ProtocolTiming.EditedSpecIsNotInjected | internal/controller/reconciler.go:188-192 | a spec edited after the experiment has started and before its injection start is recorded is never injected |
| ProtocolTiming.GenerationIsRecorded | internal/controller/reconciler.go:194-197 | every experiment past Pending has a generation on record, generations being positive |
| ProtocolTiming.LastWriteShows | pkg/safety/lease.go:157-176 | a lease shows the time that its holder wrote last |
| ProtocolTiming.RunIfReconciledInTime | internal/controller/reconciler.go:199-211 | what runs assume of leases holds if each experiment past its pre-check last wrote its lease in a reconcile that began at most 900 seconds ago |
| ProtocolSafety.TenureEndsByReleaseOrExpiry | pkg/safety/lease.go:66-152 | the holder of a lease changes only if it released the lease or the lease was taken over at an instant at which it had expired |
| ProtocolSafety.OthersKeepRely | internal/controller/reconciler.go:97-230 | however many steps the others take between two calls of a worker, it finds what it relies on |
| LocalLock.LocalExperimentLock.Acquire | pkg/safety/mutex.go:29-43 | grants a free lock and one already held by the caller, and otherwise names the holder |
| LocalLock.LocalExperimentLock.Renew | pkg/safety/mutex.go:45-56 | succeeds for the holder only, and changes nothing |
| LocalLock.LocalExperimentLock.Release | pkg/safety/mutex.go:58-70 | frees the lock for the holder only |
| ApiClient.Client.UpdateStatus | internal/controller/reconciler.go:329-331 | a status write is applied, refused for a stale resource version, or applied with its reply lost; nothing else of the experiment changes |
| ApiClient.Client.UpdateFinalizer | internal/controller/reconciler.go:336-340 | a finalizer write, likewise; removing the last one completes a pending deletion |
| ApiClient.Client.InjectFault | internal/controller/reconciler.go:354-358 | is only called behind the persisted barrier and finalizer, and never twice; a failed call may have applied the fault |
| ApiClient.Client.RevertFault | internal/controller/reconciler.go:458-461 | success means that the fault is gone; failure leaves it or not |
| ApiClient.Client.UpdateLease | pkg/safety/lease.go:111-120 | a lease write takes effect only on the lease that was read |
| ApiClient.TransitionIsStable | internal/controller/reconciler.go:318-331 | a status write that the protocol permits when it is prepared is still permitted when it takes effect, if the resource version still matches |
| ApiClient.ChainGrows | internal/controller/reconciler.go:97-230 | a record of own effects and foreign stretches can be extended by either |
| ProtocolRuns.HistoryIsRun | internal/controller/reconciler.go:97-230 | a history in which every step is recorded by the client that took it as an effect of its own, or happened outside, is a run |
| ProtocolRuns.RunIffHistory | internal/controller/reconciler.go:97-230 | and every run is such a history |
| ProtocolRuns.SampledIsChained | internal/controller/reconciler.go:97-230 | whatever states of a run a client sees, with one of its own effects or any number of foreign steps between two of them, form a record as its methods keep it; the invariant holds in all of them |
| LeaseLock.LeaseExperimentLock.Acquire | pkg/safety/lease.go:66-126 | each call that does not fail agrees, at one instant of its execution, with the in-process lock, or takes over a lease that has expired at the instant of the write; a lease acquired shows the duration asked for and a time read during the call; contention is reported only of a lease that has not expired; the call fails only if a request did or the lease vanished meanwhile |
| LeaseLock.LeaseExperimentLock.AcquireExisting | pkg/safety/lease.go:90-124 | the same for an existing lease; re-acquiring an own lease is granted without touching it |
| LeaseLock.LeaseExperimentLock.Reclaim | pkg/safety/lease.go:104-121 | a reclaim succeeds only on the very lease that was found expired, and leaves it with a time read during the call |
| LeaseLock.LeaseExperimentLock.Renew | pkg/safety/lease.go:157-176 | agrees with the in-process lock at one instant; after success the caller holds the lease, which shows a renewal time read during the call and is otherwise unchanged; the call fails only if a request did |
| LeaseLock.LeaseExperimentLock.Release | pkg/safety/lease.go:132-152 | agrees with the in-process lock at one instant; only the lease that was read as held by the caller is deleted |
| LeaseLock.LeaseCovers | pkg/safety/lease.go:68-71 | a lease lasts as long as asked, to the second, and at least 900 seconds; no longer unless it is the default |
| LeaseLock.ActiveIsNotExpired | pkg/safety/lease.go:182-196 | a lease expires exactly when its duration has passed since the time on it |
| Reconciler.ExperimentReconciler.Reconcile | internal/controller/reconciler.go:97-230 | the calls one reconcile makes, in order, with every early exit and requeue time: deletion, terminal cleanup, spec mutation, renewal, dispatch |
| Reconciler.ExperimentReconciler.RenewAndDispatch | internal/controller/reconciler.go:200-229 | past Pending nothing else is done before the lease is renewed; after a granted renewal the lease shows a time no earlier than the start of the call; a lost lease aborts, an unreachable one is retried after 5 s |
| Reconciler.ExperimentReconciler.ReconcilePending | internal/controller/reconciler.go:234-270 | validation failure aborts; the lease is asked for as long as the whole run takes; contention is retried after 30 s; only a granted lock leads to the pre-check |
| Reconciler.ExperimentReconciler.ReconcilePreCheck | internal/controller/reconciler.go:274-293 | only a passed pre-check leads to Injecting; all else aborts |
| Reconciler.ExperimentReconciler.ReconcileInject | internal/controller/reconciler.go:298-375 | a recorded injection start is never injected again; otherwise barrier, finalizer and only then the fault, each after the success of the one before |
| Reconciler.ExperimentReconciler.ReconcileObserve | internal/controller/reconciler.go:382-477 | no revert before the deadline; a due revert under a lease renewed just before; a failed revert is retried after 5 s and never given up; no second revert once recorded |
| Reconciler.ExperimentReconciler.ReconcilePostCheck | internal/controller/reconciler.go:484-540 | polls every 2 s until reconciled or the recorded deadline, then evaluates |
| Reconciler.ExperimentReconciler.ReconcileEvaluate | internal/controller/reconciler.go:544-561 | an experiment found in Evaluating is evaluated again, or aborted if the checks fail |
| Reconciler.ExperimentReconciler.DoEvaluate | internal/controller/reconciler.go:568-603 | Complete is persisted before the lock is released, and the lock is not released if that fails |
| Reconciler.ExperimentReconciler.HandleDeletion | internal/controller/reconciler.go:607-633 | the finalizer is removed only after a revert that succeeded |
| Reconciler.ExperimentReconciler.Abort | internal/controller/reconciler.go:640-688 | from Injecting the Aborted phase is persisted before the revert; from Observing and SteadyStatePost the revert comes first; the lock is released only after the terminal status is persisted |
| Reconciler.ExperimentReconciler.CleanUpTerminal | internal/controller/reconciler.go:121-186 | a terminal experiment loses its finalizer after a revert attempt (Aborted only), then its lock, then missing fields are filled in |
| Reconciler.ExperimentReconciler.Backfill | internal/controller/reconciler.go:148-183 | writes a status exactly if an interrupted abort left a field out |
| Reconciler.ExperimentReconciler.FillIn | internal/controller/reconciler.go:149-177 | fills in message, end time and condition and clears the injection start; reports a change exactly if something was missing |
| ReconcileTheorems.InjectOnlyBehindBarrier | internal/controller/reconciler.go:301-358 | in any reconcile, the fault is injected only from Injecting, without an earlier injection start and not in a deletion; after a start was stored and with the finalizer on; behind nothing but calls that succeeded; and at most once |
| ReconcileTheorems.ReleaseOnlyAtEnd | internal/controller/reconciler.go:592-684 | in any reconcile, the lock is released only directly after a terminal status was stored, after a successful revert in a deletion, or off a terminal experiment after its finalizer went |
| ReconcileTheorems.FinalizerGoesAfterRevert | internal/controller/reconciler.go:121-633 | in any reconcile, the finalizer is taken off only in a deletion after a successful revert, or off a terminal experiment, if Aborted after an attempt to revert |
| ReconcileTheorems.FailedWriteEndsReconcile | internal/controller/reconciler.go:97-230 | in any reconcile, nothing follows a failed status write |
| ReconcileTheorems.PhasesAreWarranted | internal/controller/reconciler.go:200-540 | in any reconcile, a phase is stored only if the checks of that reconcile or the times on record allow it: a pre-check of valid parameters, an injection after a pre-check that passed, a post-check after the recovery window, Complete after a final check once all is reconciled or the deadline has passed |
| ReconcileTheorems.RequeuesInTime | internal/controller/reconciler.go:391-477 | a reconcile that asks to be repeated is so within 30 seconds, no later than a waiting fault is due or the recovery window of a reverted one ends |
| ReconcileTheorems.LeaseOutlastsRun | internal/controller/reconciler.go:240-250 | the lease asked for lasts beyond the deadline of the fault and the recovery window; with a TTL also beyond the deadline of the post-check |
| ReconcileEndings.AbortsIff | internal/controller/reconciler.go:188-561 | a reconcile of an experiment that has not ended writes Aborted if and only if the spec was edited, the parameters are invalid, the lease is lost, or the check, injection or lease confirmation of its phase failed |
| ReconcileEndings.AlwaysRepeats | internal/controller/reconciler.go:200-603 | such a reconcile is always repeated, and reports an error if and only if its last call was a status or finalizer write or an acquisition that failed |
| ReconcileEndings.EndGivesLockBack | internal/controller/reconciler.go:592-684 | a reconcile whose last status write ended the experiment releases the lock of its operator as its last call |
| ReconcileEndings.DetachGivesLockBack | internal/controller/reconciler.go:118-633 | a finalizer is taken off right after the release in a deletion, and off a terminal experiment right before it |
| Json.PatchedMember | pkg/injection/crdmutation.go:102 | what a merge patch (section 2 of RFC 7396) does to one member: kept, removed, merged or replaced |
| Json.DeepMergeMaps | pkg/injection/crdmutation.go:365-382 | the loops of deepMerge compute the recursive merge in which the second map wins |
| Json.MergeValues | pkg/injection/crdmutation.go:371-379 | two objects are merged, otherwise the second wins |
| Json.MergedPatchIsBothPatches | pkg/injection/crdmutation.go:365-382 | for all trees: one merged patch does what the two patches do in turn, if the first never puts a non-object where the second puts an object |
| Json.IncompatiblePatchesDiffer | pkg/injection/crdmutation.go:365-382 | and only then: every other pair is told apart by some target |
| JsonPath.LookupIsLeaf | pkg/injection/crdmutation.go:53 | reading along a path finds the leaf, or null where the path does not lead |
| JsonPath.PutKeepsParents | pkg/injection/crdmutation.go:349-360 | writing a leaf is read back |
| JsonPath.PutTwice | pkg/injection/crdmutation.go:295-323 | the later of two writes of a leaf wins |
| JsonPath.PutBack | pkg/injection/crdmutation.go:295-323 | writing back what is there changes nothing |
| JsonPath.NestedPatchPutsLeaf | pkg/injection/crdmutation.go:83-104 | with existing parents a patch along a path changes the leaf and nothing else |
| JsonPath.NestedPatchMakesParents | pkg/injection/crdmutation.go:83-104 | whatever it is applied to, such a patch leaves objects along its path |
| JsonPath.MergedOntoNothing | pkg/injection/crdmutation.go:311-323 | a value that is restored onto nothing comes out unchanged exactly if no object in it has a null member |
| Strings.SplitAfterJoin | pkg/injection/crdmutation.go:246-249 | splitting undoes joining of segments without the separator |
| Strings.JoinAfterSplit | pkg/injection/crdmutation.go:57-60 | joining undoes splitting |
| MutationPath.AcceptedIsMutable | pkg/injection/validate.go:199-222 | every accepted target is free of separators, is not one of the two reserved paths, and survives being joined and split |
| MutationPath.FieldIsSpecMember | pkg/injection/crdmutation.go:339-347 | a field names what the path made of spec, a dot and the field names; exactly for fields without a dot, and every valid one is |
| MutationPath.PathIsJoined | pkg/injection/crdmutation.go:339-347 | a path, also before a field, names the one list of dot-free segments that gives it when joined by dots |
| MutationPath.AcceptsIff | pkg/injection/validate.go:199-311 | accepted is exactly one of path and field, at most 253 characters of valid segments, other than the identity fields and the two paths that hold the mark |
| MutationPath.ReservedPaths | pkg/injection/validate.go:168-175 | among well-formed paths exactly metadata and metadata.annotations are rejected: the two prefix rules are never reached, since no segment contains a slash |
| CrdMutation.CustomResource.Patch | pkg/injection/crdmutation.go:102-104 | a patch request is applied, refused, or applied with its reply lost |
| CrdMutation.CustomResource.Inject | pkg/injection/crdmutation.go:34-104 | resolves the target and injects value, rollback annotation and labels in one patch, or nothing; it fails exactly if a request fails |
| CrdMutation.CustomResource.Revert | pkg/injection/crdmutation.go:217-337 | sends the patches of a revert in order up to the first that fails; it fails exactly if a request does or the rollback data can not be read, and then before any patch |
| CrdRoundTrip.ValueAndMetadataAreCompatible | pkg/injection/crdmutation.go:92-97 | the value patch and the metadata patch are a compatible pair on every mutable path |
| CrdRoundTrip.MetadataPatchIsInvisible | pkg/injection/crdmutation.go:266-271 | marking and unmarking changes nothing but the annotation, the two chaos labels and empty maps |
| CrdRoundTrip.MarkIsReadBack | pkg/injection/crdmutation.go:234-255 | the rollback data is read back; unmarking removes it |
| CrdRoundTrip.InjectionWritesLeaf | pkg/injection/crdmutation.go:83-104 | an injection writes the leaf and the mark |
| CrdRoundTrip.RestoreWritesLeaf | pkg/injection/crdmutation.go:273-334 | a complete revert, in one step or two, writes the original leaf and removes the mark |
| CrdRoundTrip.PutKeepsAlike | pkg/injection/crdmutation.go:217-337 | objects that differ in the mark only still do after the same write |
| MutationTarget.FieldInjection | pkg/injection/crdmutation.go:34-104 | injecting into an accepted field merges the value into that member of spec; no other member of spec, and none of the object but spec and metadata, changes, and metadata only by the mark |
| MutationTarget.PathInjection | pkg/injection/crdmutation.go:34-104 | injecting at an accepted path merges the value into what the path leads to, whether its parents existed or not; no other place can be read differently, except for the mark |
| MutationTarget.InjectionHitsTarget | pkg/injection/crdmutation.go:51-104 | the same of any mutable path, with what the mark says: the path, the value before, and the two labels |
| CrdTheorems.AcceptedIsTarget | pkg/injection/validate.go:199-222 | every target that validation accepts can be reverted from its rollback data |
| CrdTheorems.RoundTripExactly | pkg/injection/crdmutation.go:34-337 | for every stored object, target path and injected value: inject followed by revert gives the original back (up to annotation, chaos labels and empty maps) if and only if the path leads through existing objects and the original value is neither null nor an object with a null member |
| CrdTheorems.SameObjectExactly | pkg/injection/crdmutation.go:139-150 | the very same object comes back, annotation and labels included, if and only if it is also so that it had a label and an annotation map and none of the three entries: a managed-by label of its own is lost |
| CrdTheorems.RoundTripWithParents | pkg/injection/crdmutation.go:34-337 | the same with existing parents |
| CrdTheorems.CreatedParentsRemain | pkg/injection/crdmutation.go:349-360 | without existing parents the injection creates them, and no revert removes them |
| CrdTheorems.RevertWritesOriginal | pkg/injection/crdmutation.go:217-337 | an injected object carries the mark, and its revert writes back the original value without null members |
| CrdTheorems.CutRevertKeepsOutcome | pkg/injection/crdmutation.go:289-334 | an attempt cut off after any patch changes nothing about the outcome, and the mark stays until the value is back |
| CrdTheorems.RetriedRevertConverges | pkg/injection/crdmutation.go:217-337 | any number of attempts cut off after any patch, followed by one that completes, ends in the object of one uninterrupted revert |
| CrdTheorems.RetriedRevertRestores | pkg/injection/crdmutation.go:217-337 | a restorable object comes back however often its revert was cut off; without a mark it is back already |
| CrdTheorems.SecondMutationHidesFirst | pkg/injection/crdmutation.go:51-100 | after a second injection into the same object and any cut reverts, the object that counts as reverted is the one after the first injection: the original if and only if the first changed nothing |
| CrdTheorems.ChangesNothingIff | pkg/injection/crdmutation.go:85-104 | with existing parents, an injection changes nothing if and only if the patch leaves its leaf as it was |
| CrdTheorems.RejectedExactlyWhenUnsafe | pkg/injection/validate.go:168-175 | of the well-formed paths, validation rejects exactly those whose null step could remove the mark |
| StepGraph.PassIsLeast | pkg/upgrade/sequencer.go:228-236 | a pass is lexicographically least, by original position, of all orders that respect the edges |
| StepGraph.EdgeAdded | pkg/upgrade/sequencer.go:61-70 | adding an edge keeps in-degrees equal to the numbers of predecessors |
| StepGraph.EdgeRemoved | pkg/upgrade/sequencer.go:184-200 | so does removing one |
| KahnPass.PassIsUnique | pkg/upgrade/sequencer.go:206-249 | what a pass lists, repeated names included, is determined by the edges, the number of copies and the positions |
| KahnPass.StuckHasStuck | pkg/upgrade/sequencer.go:158-169 | every step that a pass leaves out has a predecessor that it leaves out |
| KahnPass.AcyclicListsAll | pkg/upgrade/sequencer.go:206-249 | on an acyclic graph a pass lists every name |
| KahnPass.CompleteIff | pkg/upgrade/sequencer.go:153-156 | a pass lists as many steps as there are if and only if it leaves no name out and every repeated name is without prerequisites: any other repeated name it lists once |
| KahnPass.PassWithoutCopies | pkg/upgrade/sequencer.go:206-249 | without repeated roots a pass takes, of the names whose predecessors are all listed, the lowest first |
| KahnPass.ListedAfterUnrepeated | pkg/upgrade/sequencer.go:240-245 | a step is listed after all its prerequisites if none of them is repeated |
| RepeatedSteps.AlwaysAfterIff | pkg/upgrade/sequencer.go:240-245 | if the sort ends without dropping an edge: a step comes out after all its dependencies in whatever order the steps are given, if and only if it has one at most or none of them is repeated |
| Sequencer.PickLowest | pkg/upgrade/sequencer.go:228-234 | finds a queued step of lowest original position |
| Sequencer.InitialQueue | pkg/upgrade/sequencer.go:213-219 | the queue starts with every copy of a name of in-degree zero, in original order |
| Sequencer.Relax | pkg/upgrade/sequencer.go:240-245 | each successor is counted down by one, and queued exactly if it was at one |
| Sequencer.RunKahn | pkg/upgrade/sequencer.go:206-249 | one pass, for any names: lowest queued first for as long as anything is queued; of a repeated name it lists the last copy each time |
| Sequencer.PickHighest | pkg/upgrade/sequencer.go:173-182 | finds a stuck step of highest original position |
| Sequencer.DropEdgeInto | pkg/upgrade/sequencer.go:184-200 | removes the edge into the given step from the first stuck step, in original order, that has one |
| Sequencer.BreakCycle | pkg/upgrade/sequencer.go:173-200 | drops exactly one edge: into the stuck step of highest position, from the first stuck step that has such an edge |
| Sequencer.LeftOut | pkg/upgrade/sequencer.go:158-169 | the steps that a pass left out |
| Sequencer.KahnRound | pkg/upgrade/sequencer.go:152-201 | one round, for any names: a pass, and if something is stuck, one edge less |
| Sequencer.SortEnds | pkg/upgrade/sequencer.go:153-156 | when nothing is stuck, the pass is complete if and only if every repeated name is without prerequisites |
| Sequencer.KahnSort | pkg/upgrade/sequencer.go:130-202 | for every graph and any names: after finitely many rounds nothing is stuck, and the sort ends then if and only if every repeated name is without prerequisites in the graph that is left; one warning is issued for each dropped edge, and none if there are no cycles |
| Sequencer.StuckIsCyclic | pkg/upgrade/sequencer.go:154-158 | a pass leaves names out only of a cyclic graph |
| CycleBreaking.SortIsUnique | pkg/upgrade/sequencer.go:130-202 | what a sort lists in the end is determined by names, positions and edges; the order of the adjacency lists does not matter |
| CycleBreaking.StandsStill | pkg/upgrade/sequencer.go:152-171 | if the pass is short though nothing is stuck, every further round is the same: the sort never ends |
| CycleBreaking.DroppedEdgeIsOnCycleIff | pkg/upgrade/sequencer.go:173-200 | the edge dropped in a round leads from the first stuck step with an edge into the stuck step of highest position to that step, and is on a cycle if and only if the latter reaches the former; the comment in the code says cycle member of both |
| CycleBreaking.DependencyIsOvertaken | pkg/upgrade/sequencer.go:173-200 | a and b depend on each other, b on z, c on b: the result is c, z, b, a, with c before b although that dependency is on no cycle |
| EndingSorts.ListsNoLess | pkg/upgrade/sequencer.go:206-249 | a pass lists no step less often than a pass over another graph, if each step has there the same prerequisites, is listed there in full, or can not be listed here |
| EndingSorts.EndsIffWaiting | pkg/upgrade/sequencer.go:130-202 | for every graph, the condition of EndsIffRepeatedWait |
| CycleEdges.DropsCycleEdgesOnlyIff | pkg/upgrade/sequencer.go:173-200 | for distinct steps, given in whatever order: every dependency that is dropped is on a cycle, if and only if no dependency leads from a step on a cycle out of its cycles |
| Sequence.BuildIndex | pkg/upgrade/sequencer.go:37-41 | positions by name; a repeated name keeps its last |
| Sequence.FindUnknown | pkg/upgrade/sequencer.go:43-50 | finds a dependency that names no step if and only if there is one |
| Sequence.AddEdge | pkg/upgrade/sequencer.go:61-70 | adds an edge unless it is there |
| Sequence.BuildGraph | pkg/upgrade/sequencer.go:52-77 | the edges are exactly the dependencies, and the degrees belong to them |
| Sequence.SequenceSteps | pkg/upgrade/sequencer.go:32-109 | for any names: fails if and only if a dependency is unknown; otherwise the result is that of the sort of the dependency graph, each name as often as it occurs, and there is one if and only if every repeated name is without prerequisites in the graph that is left |
| Sequence.DistinctIsSequenced | pkg/upgrade/sequencer.go:32-109 | distinct steps are always sequenced: the result is a permutation of them that respects every kept edge, lowest position first |
| Sequence.AcyclicIsLeast | pkg/upgrade/sequencer.go:206-249 | for distinct names, if any order respects all dependencies, there are no warnings and the result is the lexicographically least such order |
| Sequence.OrderedIsUnchanged | pkg/upgrade/sequencer.go:206-249 | a playbook already in order is returned unchanged |
| Sequence.WarningsIffCyclic | pkg/upgrade/sequencer.go:158-171 | warnings are issued exactly if no order respects all dependencies |
| Sequence.EndsIffRepeatedWait | pkg/upgrade/sequencer.go:130-202 | for every playbook: the sort ends if and only if, for each repeated step, none of its dependencies would come out if the steps positioned after it had no dependencies; the uniqueness that the comment announces is not checked |
| Sequence.FreeEnds | pkg/upgrade/sequencer.go:130-202 | so every playbook is sorted, whatever its cycles, in which no repeated step has dependencies |
| Sequence.EndsIff | pkg/upgrade/sequencer.go:152-156 | and that is the exact condition if some order respects all dependencies |
| Sequence.RepeatedCycleExample | pkg/upgrade/sequencer.go:173-200 | but not with cycles: two steps that depend on themselves are sorted |
| Sequence.RepeatedNameExample | pkg/upgrade/sequencer.go:152-156 | so the sort of a and two steps b that depend on it does not end, and that of two steps a does |
| Sequence.OvertakenExample | pkg/upgrade/sequencer.go:173-200 | a playbook of four steps in which a dependency on no cycle is overtaken |
| Executor.Begin | internal/cli/upgrade/executor.go:170-192 | a run that may start at a named step starts at a step of that name; when it may, and why not, is StartIff |
| Executor.PlaybookExecutor.ResolveResumeIndex | internal/cli/upgrade/executor.go:170-192 | finds the first step of that name; refuses without a state file, and with a failure recorded elsewhere, unless forced |
| Executor.PlaybookExecutor.ExecuteStep | internal/cli/upgrade/executor.go:91-137 | one step and what is recorded about it: failure, completion, or nothing for a synthetic step |
| Executor.PlaybookExecutor.Run | internal/cli/upgrade/executor.go:36-149 | the whole run: where it starts, which steps it skips, executes and records, where it stops, and what state file it leaves |
| RunOutcome.StartIff | internal/cli/upgrade/executor.go:59-71 | exactly when a run may start - without a resume step, no failure on record; with one, a step of that name and, unless forced, a state file without a failure elsewhere - and at which step, or why not |
| RunOutcome.RunExecutesIff | internal/cli/upgrade/executor.go:59-94 | a run executes something if and only if it may start and the first step from its start on that is not on record has a registered type, and that step first; a refused run gives the right reason, executes nothing and leaves the file as it was |
| RunOutcome.NoFileNoResume | internal/cli/upgrade/executor.go:182-185 | an unforced resume without a state file is refused, executes nothing and leaves no file |
| RunOutcome.RunLeaves | internal/cli/upgrade/executor.go:106-141 | if saves work: success leaves no state file; a failure is on record with its step and error; an interrupted run leaves the old failure on record exactly if no real step has finished since; finished steps are on record with their status and nothing else is lost |
| ResumeSafety.ContinueKeeps | internal/cli/upgrade/executor.go:73-138 | if saves work, a run that starts after everything before it is on record keeps the order in which steps go on record, and ends with a true record or with all steps on record |
| ResumeSafety.RunsKeepOrder | internal/cli/upgrade/executor.go:52-192 | over any sequence of runs until the first success, resumed only at the recorded failure, unforced, with working saves, for steps that may enter themselves at any time, fail and be killed: each step is executed only after all non-synthetic steps before it are on record, no non-synthetic step again after it is, and everything before a recorded failure is; steps pass in order if and only if nothing is executed after a step that entered itself and did not finish; on success all have passed if and only if there was no such step |
| ResumeSafety.PassedIff | internal/cli/upgrade/executor.go:73-138 | a step on record has passed if and only if no attempt at it entered itself and did not finish |
| ResumeSafety.PassInOrderIff | internal/cli/upgrade/executor.go:85-89 | if steps go on record in order, they pass in order if and only if nothing follows one that entered itself and did not finish |
| ResumeSafety.DependenciesPassFirst | internal/cli/upgrade/executor.go:73-138 | in the order of the sequencer: when a step is executed, each dependency that was kept is on record, unless synthetic, and has passed if and only if no attempt at it entered itself and did not finish |
| ResumeSafety.ResumeIsSafeIff | internal/cli/upgrade/executor.go:182-189 | with working saves, an accepted resume keeps the order of the record if and only if it executes nothing or everything before its start is on record, and then the order of passing if and only if nothing follows a step on record that did not finish; unforced, a recorded failure guarantees the former, but its absence is accepted too |
| ResumeSafety.KilledThenSkipped | internal/cli/upgrade/executor.go:187-189 | two unforced runs that leave out a step: after a kill no failure is recorded, and any step can be resumed at |
| ResumeSafety.CorruptFileIsSafeIff | internal/cli/upgrade/executor.go:152-165 | with a state file that can not be read, whatever attempts and saves do, a run may start at any step, unforced; it keeps the order if and only if it executes nothing, or everything before its start has passed and nothing that it executes has; from a non-synthetic step, if and only if that step is next |
| ResumeSafety.LeftStepIsRetriedIff | internal/cli/upgrade/executor.go:85-89 | with working saves, some run from the state file that a failed or killed step leaves executes it if and only if it had not entered itself in the completed steps; after a failure the unforced resume then executes it first |
| ResumeSafety.PartialStepIsLost | internal/cli/upgrade/step_olm.go:138-179 | an OLM step that fails after a completed hop or an attempted rollback, or is killed after one, is in the completed steps: the resume, or after a kill a plain run, skips it and reports success |
| Match.FreeFrom | pkg/diff/match.go:38-48 | the first free target that is the same, or none |
| Match.FirstFree | pkg/diff/match.go:38-48 | finds it |
| Match.ExactPass | pkg/diff/match.go:36-49 | the exact matches are one-to-one, each source taking its first free target, and exhaustive |
| Match.FindCandidates | pkg/diff/match.go:51-66 | exactly the pairs with both ends free and a score at or above 0.6 |
| Match.SortByScore | pkg/diff/match.go:246-250 | a descending permutation; ties in any order |
| Match.GreedyPass | pkg/diff/match.go:70-81 | takes candidates that stay one-to-one; every candidate is taken, or shares an end with a match of at least its score |
| Match.CollectUnmatched | pkg/diff/match.go:83-93 | what is not used, in order |
| Match.FindMatches | pkg/diff/match.go:32-96 | both passes together, with what is added and removed |
| MatchTheorems.NothingIsLost | pkg/diff/match.go:83-95 | each source is matched once or removed, each target matched once or added |
| MatchTheorems.NothingWasMissed | pkg/diff/match.go:51-66 | a source and a target that both stay unmatched are not the same and score below the threshold |
| MatchTheorems.NoBlockingPair | pkg/diff/match.go:68-81 | an unpaired candidate has an end that is paired at an equal or higher score |
| MatchTheorems.NoTiesDecide | pkg/diff/match.go:245-250 | without ties between candidates any two outcomes match the same pairs, whatever the unstable sort does |
| Similarity.SetOverlap | pkg/diff/match.go:223-243 | intersection over union, counted by loops; 0 for two empty sets |
| Similarity.OverlapBounds | pkg/diff/match.go:221-243 | the overlap is symmetric, lies in [0, 1], is 1 exactly for equal non-empty sets and 0 exactly for disjoint ones |
| Similarity.ResourceKinds | pkg/diff/match.go:193-199 | the distinct kinds |
| Similarity.AllLabelKeys | pkg/diff/match.go:202-210 | the distinct label keys |
| Similarity.ComponentSimilarity | pkg/diff/match.go:100-119 | the weighted score |
| Similarity.SimilarityBounds | pkg/diff/match.go:98-119 | the score is symmetric, lies in [0, 1], and is 1 exactly for components alike in all it looks at; components without a common kind reach the threshold exactly if alike in all the rest |
| Similarity.AspectsWeigh | pkg/diff/match.go:98-119 | for components of equally many resources that agree fully or not at all in each aspect, the score is the sum of 4, 3, 2 and 1 tenths for kinds, labels, controller and count; any two of the first three reach the threshold and one does not |
| Similarity.MatchComponents | pkg/diff/match.go:32-96 | a matching by name and similarity that loses nothing |
| Similarity.MatchResources | pkg/diff/match.go:123-190 | a matching by kind and name, then label overlap, that loses nothing and never pairs different kinds |
| ConfigDrift.ConfigDriftInjector.InjectSecret | pkg/injection/configdrift.go:50-139 | writes the rollback Secret first and the drifted, marked Secret second, up to the first write that fails; it fails exactly if the Secret is missing or a request fails |
| ConfigDrift.ConfigDriftInjector.RevertSecret | pkg/injection/configdrift.go:202-276 | restores the data, deletes the rollback Secret and removes the mark, in this order, up to the first write that fails; it fails exactly if a request does or the record is broken, and then before any write |
| ConfigDrift.ConfigDriftInjector.InjectConfigMap | pkg/injection/configdrift.go:141-186 | drifts and marks a ConfigMap in one write, or does nothing; it fails exactly if the ConfigMap is missing or a request fails |
| ConfigDrift.ConfigDriftInjector.RevertConfigMap | pkg/injection/configdrift.go:278-314 | restores and unmarks it in one write; it fails exactly if a request does or the record is broken |
| DriftTheorems.RecordIsFaithfulIff | pkg/injection/configdrift.go:91-94 | the record gives the original back if and only if the key is not keyExists, or was absent, or its value is true: value and flag share one map |
| DriftTheorems.InjectionRecovers | pkg/injection/configdrift.go:84-126 | after an injection the annotation is there and the rollback Secret holds the original |
| DriftTheorems.InjectionDrifts | pkg/injection/configdrift.go:50-186 | after an injection the key holds the injected value and the object its mark; its other data and labels, and all other objects but the rollback Secret, are as before |
| DriftTheorems.CutRevertKeepsOthers | pkg/injection/configdrift.go:202-314 | a revert, cut off or not, touches nothing but the object and the rollback Secret that its mark names |
| DriftTheorems.CutRevertRecovers | pkg/injection/configdrift.go:242-275 | after any write of a revert: while the annotation is there, the rollback Secret holds the original or the data is back; nothing but key, annotation and chaos labels has changed |
| DriftTheorems.OthersKeepRecovers | pkg/injection/configdrift.go:202-276 | so it is after writes of others that leave the key, the annotation and the rollback Secret alone |
| DriftTheorems.SecretIsRestoredIff | pkg/injection/configdrift.go:202-276 | after any history of reverts cut off after any write, with writes of others that leave key, annotation and rollback Secret alone, a revert does not fail on its record, and the first that completes leaves the key at its original value, or absent, if and only if the value is recoverable in the sense above; a second drift is the subject of BothComeBackIff |
| DriftTheorems.CutInjectionIsHarmless | pkg/injection/configdrift.go:96-126 | an injection cut off between its two writes has not changed the Secret; the rollback Secret stays behind |
| DriftTheorems.SecondInjectionLosesOriginal | pkg/injection/configdrift.go:98-107 | a second injection into the same key before the revert overwrites the record: the original comes back if and only if it is what the first injection wrote, or, under the key keyExists, the word true |
| DriftTheorems.RollbackNamesCollide | pkg/injection/configdrift.go:69-73 | different Secrets can share the name of their rollback Secrets |
| DriftTheorems.SameRollbackNameIff | pkg/injection/configdrift.go:69-73 | two keys of a Secret have the same rollback Secret if and only if they agree in the first 30 characters, up to case and to underscores for hyphens |
| DriftOverlap.BothComeBackIff | pkg/injection/configdrift.go:50-276 | two drifts of different Secrets, or of two keys of one, with reverts of both in any order, each cut off after any write: both values always come back if and only if, with separate Secrets and separate rollback Secrets, both values are recoverable; else, the second is recoverable, the first drift changed nothing, and the second record, if it can be misread as the first, reads the same and its drift changed nothing either |
| DriftOverlap.SecondRevertedFirst | pkg/injection/configdrift.go:235-241 | with a shared rollback Secret or a shared annotation, reverting the second drift first leaves the first value drifted, with its revert reported as done |
| DriftOverlap.FirstRevertedFirst | pkg/injection/configdrift.go:251-269 | and reverting the first one first, where the record can be misread, leaves the second drifted |
| DriftOverlap.CollisionExample | pkg/injection/configdrift.go:69-73 | Secrets app and app-db with keys db-pw and pw: the revert of the first fails, and after that of the second it succeeds with the drifted value in place |
| DriftOverlap.BothConfigMapsComeBackIff | pkg/injection/configdrift.go:141-314 | two drifts of ConfigMaps, or of two keys of one, with cut reverts of both in any order: both values always come back if and only if the ConfigMaps differ, or both drifts changed nothing and wrote the same |
| DriftOverlap.FirstConfigMapRevert | pkg/injection/configdrift.go:159-166 | of two keys of one ConfigMap, the key that is reverted first gets the original of the second drift, and the other keeps its drifted value |
| DriftTheorems.ConfigMapIsRestored | pkg/injection/configdrift.go:278-314 | a ConfigMap comes back for every key after any history of cut reverts and writes of others; a revert never fails on its record, and without the annotation the value is back already |
| DriftTheorems.ConfigMapRoundTrip | pkg/injection/configdrift.go:141-186 | if nothing else happens, all its data come back, and a second revert does nothing |
| Lifecycle.Orchestrator.Run | pkg/orchestrator/lifecycle.go:538-804 | every exit: the log is orderly (an injection only after a pre-check that passed, no revert before the TTL has passed unless something failed, no cleanup after a successful one or after the release, the lock released after a cleanup attempt, the post-check only after the recovery time), an injected fault gets at least one cleanup, the lock is released exactly once if acquired, nothing happens on invalid or dry runs, the waits fit in the lease, and the run is Complete if and only if it was valid and either dry or its post-check worked |
| Lifecycle.Orchestrator.RevertAtTTL | pkg/orchestrator/lifecycle.go:343-382 | on success nothing is left to clean up; otherwise the cleanup is still owed, there is a reason for it, and the lock was lost at most just before |
| Lifecycle.Orchestrator.ObserveAndCheck | pkg/orchestrator/lifecycle.go:640-697 | the post-check comes after a recovery time, with the fault gone if there is a TTL |
| Lifecycle.NothingAfterSuccess | pkg/orchestrator/lifecycle.go:622-636 | in an orderly log no cleanup follows a successful one, and neither cleanup nor release follows a release |
| Lifecycle.InjectsAfterCheck | pkg/orchestrator/lifecycle.go:595-620 | in an orderly log every injection comes after a pre-check that passed, and after a failed pre-check only the release follows |
| Lifecycle.CourseTells | pkg/orchestrator/lifecycle.go:595-697 | in an orderly log: what the pre-check said, that an injection followed only a passed one, and that a run marked as failed has an event that failed |
| Lifecycle.PostChecksOnce | pkg/orchestrator/lifecycle.go:674-697 | an orderly log has one post-check at most, and the run counts as checked if and only if it worked |
| Lifecycle.BooksCount | pkg/orchestrator/lifecycle.go:585-589 | the accounts of an orderly log count its events: at most one acquisition and one injection |
| Lifecycle.BooksAgree | pkg/orchestrator/lifecycle.go:622-636 | there is no cleanup without an injection and no release without an acquisition |
| Sections.FindEnd | hack/gen-component-docs.go:186-197 | the first end marker of the section |
| Sections.MarkersAreRead | hack/gen-component-docs.go:174-201 | the two comments with a name between are read as start and end of the section of that name, whatever white space is around them |
| Sections.ReadSection | hack/gen-component-docs.go:186-201 | the lines up to the end marker, or that there is none |
| Sections.ExtractCustomSections | hack/gen-component-docs.go:174-205 | the sections by name; none at all if one is not closed |
| Sections.InjectCustomSections | hack/gen-component-docs.go:207-246 | the page with the bodies of its sections replaced; unchanged if there is nothing to inject |
| Sections.OntoIsAfter | hack/gen-component-docs.go:211-245 | writing onto the output so far is writing after it |
| SectionTheorems.ParseAfterFlatten | hack/gen-component-docs.go:174-205 | a page written from blocks is read as these blocks |
| SectionTheorems.FlattenAfterParse | hack/gen-component-docs.go:174-205 | and a page read as blocks is their text |
| SectionTheorems.ExtractAfterInject | hack/gen-component-docs.go:174-246 | for every well-formed template: extraction from the new page gives for exactly its sections their content in s, empty where s has none; everything outside the sections is the template's |
| SectionTheorems.BodySurvivesIff | hack/gen-component-docs.go:207-246 | what a section of the template holds survives the injection if and only if nothing at all is stored, or the same is stored for it |
| SectionTheorems.InjectTwice | hack/gen-component-docs.go:207-246 | a second injection changes nothing |
| SectionTheorems.ExtractFits | hack/gen-component-docs.go:174-205 | what extraction returns is whole lines without the own end marker, as the two results above require |
| SectionTheorems.RegenerateIsStable | hack/gen-component-docs.go:174-246 | regenerating a page from what was extracted from it gives it again |
| Evaluator.VerdictEvaluator.ComputeVerdict | pkg/evaluator/engine.go:128-173 | a failed post-check fails; otherwise any deviation degrades |
| Evaluator.VerdictEvaluator.Aggregate | pkg/evaluator/engine.go:69-85 | all reconciled, and the worst cycle count and recovery time |
| Evaluator.VerdictEvaluator.EvaluateFromFindings | pkg/evaluator/engine.go:60-126 | the verdict, times and deviations of a list of findings |
| Evaluator.ResilientIff | pkg/evaluator/engine.go:101-123 | Resilient exactly if the post-check passed and there are no deviations, that is: everything reconciled in time and within the cycles, and no dependent degraded |
| Evaluator.DeviationsTell | pkg/evaluator/engine.go:101-173 | each deviation is listed if and only if it is so, with the values it shows: something unreconciled after a passed check, the worst time above a positive timeout, the worst cycle count above a positive maximum, and each degraded dependent; Failed and Inconclusive mean a failed and a missing check |
| Evaluator.OrderDoesNotMatter | pkg/evaluator/engine.go:60-126 | if the steady-state findings agree, the order of findings changes neither verdict nor times nor the multiset of deviations |
| Evaluator.OrderIsIrrelevantIff | pkg/evaluator/engine.go:88-94 | all orders of a list of findings have the same outcome if and only if any two steady-state findings agree on whether there were checks and whether they passed |
| Evaluator.WorseFindingsNeverHelp | pkg/evaluator/engine.go:60-173 | worsening any findings never improves the verdict |
| Evaluator.MoreFindingsNeverHelp | pkg/evaluator/engine.go:112-123 | neither does one more finding about reconciliation or a dependent |

## Left out

- Client plumbing, informer caches and stale reads of the own object, JSON and YAML encoding, SHA-256.
- Events, texts of conditions and messages beyond presence, logging, metrics, reporters, result storage, dashboards.
- Re-creation of an experiment under a name used before, and the truncation of stored times to seconds.
- Parameter checks other than the mutation path, and the deny-lists of resources and namespaces.
- The legacy `field` entry of CRD rollback data, and the cleanup closure of Inject, which sends the same patches as Revert.
- Patches of a custom resource are applied to the stored object at once; edits by others between two patches of one revert are not modelled.
- Status effects of the API server's own schema checks, such as required fields that refuse a null.
- Automatic dependency inference and health gates of the sequencer, which the command-line caller does not use.
- Texts of warnings: a warning is the list of stuck steps.
- Dry runs and progress output of the executor.
- Failure to remove the state file after success, and results of steps other than their status.
- Floating-point rounding of scores.
- The component and resource differences computed from a matching.
- Evaluate on a pre- and a post-check result: one more branch before the verdict that is modelled.
- Panics, and the effect of cancelled contexts inside checks, of the command-line lifecycle.
- Loading, rendering and writing of documentation pages around the two section functions.
- The other injectors, which repeat the annotation or backup pattern more simply.
- KahnPass.ListedAfterUnrepeated: says nothing of steps with a repeated prerequisite; AlwaysAfterIff shows that no more holds for all orders of the given steps.
- RepeatedSteps.AlwaysAfterIff: is about playbooks without cycles; with cycles the same holds of the graph that is left, but not of the dropped edges.
- DriftOverlap.BothComeBackIff: is about two drifts, of Secrets or keys that differ; one key drifted twice is SecondInjectionLosesOriginal.
- CrdTheorems.SecondMutationHidesFirst: says nothing of a second mutation that is not restorable itself (RoundTripExactly).
- CycleEdges.DropsCycleEdgesOnlyIff: is about steps with distinct names, and about the cycles of the given dependencies.
