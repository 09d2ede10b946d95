/** The controller's reconcile loop, one phase per reconcile.  Handlers take the object
    as last read from the API server (x) and the status being prepared in memory (st).
    What the orchestrator's checks return comes in as `Checks`. */
module Reconciler {
  import opened Wrappers
  import opened ExperimentWorld
  import opened LocalLock
  import opened ApiClient
  import opened LeaseLock

  const IMMEDIATE_REQUEUE := 100
  const LOCK_CONTENTION_REQUEUE := 30 * SECOND
  const MAX_OBSERVE_REQUEUE := 30 * SECOND
  const REVERT_RETRY_INTERVAL := 5 * SECOND
  const POST_CHECK_POLL_INTERVAL := 2 * SECOND
  const LEASE_RETRY_REQUEUE := 5 * SECOND

  datatype Outcome = Done | RequeueAfter(ms: int) | Failed

  /** What the orchestrator's validation and checks return; None is an error. */
  datatype Checks = Checks(valid: bool, preCheck: Option<bool>, poll: Poll, finalCheck: Option<bool>)
  datatype Poll = PollFailed | NothingToPoll | Polled(allReconciled: bool)

  function Capped(requeue: int): int {
    if requeue > MAX_OBSERVE_REQUEUE then MAX_OBSERVE_REQUEUE else requeue
  }

  /** The clock showed this time in one of the states from the given one on. */
  ghost predicate Showed(trace: seq<World>, from: int, at: int) {
    exists k :: from <= k < |trace| && 0 <= k && trace[k].now == at
  }

  /** In one of the states from the given one on, e held the lease with a time on it not before since. */
  ghost predicate Refreshed(trace: seq<World>, from: int, op: Operator, e: Name, since: int) {
    exists k :: from <= k < |trace| && 0 <= k && ActiveBetween(trace[k], op, e, since, trace[k].now)
  }

  // --- the order of the calls each handler makes ---

  /** One status write, after which the lock is released if and only if it succeeded. */
  ghost predicate PersistThenRelease(op: Operator, trail: seq<Call>, r: Outcome) {
    && 1 <= |trail| <= 2 && trail[0].StatusUpdate?
    && (trail[0].ok ==> |trail| == 2 && trail[1].Release? && trail[1].op == op && r == RequeueAfter(IMMEDIATE_REQUEUE))
    && (!trail[0].ok ==> |trail| == 1 && r.Failed?)
  }

  ghost predicate FinalAbort(op: Operator, trail: seq<Call>, cleanupError: bool, r: Outcome) {
    && PersistThenRelease(op, trail, r)
    && var st := trail[0].st;
       st.phase.Aborted? && st.endTime.Some? && st.cleanupError == cleanupError && st.completeCondition
  }

  /** An abort reverts before it records the outcome; from Injecting it first persists
      the Aborted phase, and stops if that fails. */
  ghost predicate AbortTrail(op: Operator, p: Phase, trail: seq<Call>, r: Outcome) {
    if p.Injecting? then
      && |trail| >= 1 && trail[0].StatusUpdate?
      && trail[0].st.phase.Aborted? && trail[0].st.injectionStartedAt.None?
      && if !trail[0].ok then |trail| == 1 && r.Failed?
         else |trail| >= 2 && trail[1].Revert? && FinalAbort(op, trail[2..], !trail[1].ok, r)
    else if p.Observing? || p.SteadyStatePost? then
      |trail| >= 1 && trail[0].Revert? && FinalAbort(op, trail[1..], !trail[0].ok, r)
    else FinalAbort(op, trail, false, r)
  }

  /** One status write to the given phase, and a requeue if it succeeded. */
  ghost predicate Advances(trail: seq<Call>, p: Phase, r: Outcome, ms: int) {
    && |trail| == 1 && trail[0].StatusUpdate? && trail[0].st.phase == p
    && r == (if trail[0].ok then RequeueAfter(ms) else Failed)
  }

  /** What a whole run takes: the fault's TTL, the recovery window, and the post-check. */
  function RunTime(spec: Spec): int {
    (if spec.ttl > 0 then spec.ttl else 0) + spec.Recovery() + spec.Recovery()
  }

  ghost predicate PendingTrail(x: Experiment, checks: Checks, trail: seq<Call>, r: Outcome) {
    if !checks.valid then AbortTrail(x.spec.operator, Pending, trail, r)
    else
      && |trail| >= 1 && trail[0].Acquire? && trail[0].op == x.spec.operator && trail[0].duration == RunTime(x.spec)
      && if trail[0].result.Granted? then Advances(trail[1..], SteadyStatePre, r, IMMEDIATE_REQUEUE)
         else
           && |trail| == 1
           && r == (if trail[0].result.Contention? then RequeueAfter(LOCK_CONTENTION_REQUEUE) else Failed)
  }

  ghost predicate PreCheckTrail(x: Experiment, checks: Checks, trail: seq<Call>, r: Outcome) {
    if checks.preCheck == Some(true) then Advances(trail, Injecting, r, IMMEDIATE_REQUEUE)
    else AbortTrail(x.spec.operator, SteadyStatePre, trail, r)
  }

  /** After a recorded injection start the fault is never injected again; otherwise the
      start is persisted first, then the finalizer, and only then is the fault injected. */
  ghost predicate InjectTrail(x: Experiment, trail: seq<Call>, r: Outcome) {
    if x.status.injectionStartedAt.Some? then
      if x.finalizer then Advances(trail, Observing, r, IMMEDIATE_REQUEUE)
      else
        && |trail| >= 1 && trail[0].FinalizerUpdate? && trail[0].present
        && if trail[0].ok then Advances(trail[1..], Observing, r, IMMEDIATE_REQUEUE) else |trail| == 1 && r.Failed?
    else
      && |trail| >= 1 && trail[0].StatusUpdate?
      && trail[0].st.phase.Injecting? && trail[0].st.injectionStartedAt.Some?
      && if !trail[0].ok then |trail| == 1 && r.Failed?
         else if x.finalizer then FaultTrail(x.spec.operator, trail[1..], r)
         else FinalizerTrail(x.spec.operator, trail[1..], r)
  }

  ghost predicate FinalizerTrail(op: Operator, trail: seq<Call>, r: Outcome) {
    && |trail| >= 1 && trail[0].FinalizerUpdate? && trail[0].present
    && if !trail[0].ok then |trail| == 1 && r.Failed?
       else
         && |trail| >= 2 && trail[1].StatusUpdate? && trail[1].st.phase.Injecting?
         && if !trail[1].ok then |trail| == 2 && r.Failed? else FaultTrail(op, trail[2..], r)
  }

  ghost predicate FaultTrail(op: Operator, trail: seq<Call>, r: Outcome) {
    && |trail| >= 1 && trail[0].Inject?
    && if trail[0].ok then Advances(trail[1..], Observing, r, IMMEDIATE_REQUEUE)
       else AbortTrail(op, Injecting, trail[1..], r)
  }

  ghost predicate Waits(trail: seq<Call>, remaining: int, r: Outcome) {
    trail == [] && r == RequeueAfter(Capped(remaining))
  }

  /** At time `at`: the fault is reverted when it is due and not before, once, under a
      lease confirmed just before; a failed revert is retried, never given up. */
  ghost predicate ObserveTrail(x: Experiment, at: int, trail: seq<Call>, r: Outcome) {
    var s := x.status;
    if s.injectionStartedAt.None? then AbortTrail(x.spec.operator, Observing, trail, r)
    else if s.faultRevertedAt.Some? then
      var windowEnd := s.faultRevertedAt.value + x.spec.Recovery();
      if at < windowEnd then Waits(trail, windowEnd - at, r)
      else Advances(trail, SteadyStatePost, r, IMMEDIATE_REQUEUE)
    else
      var due := s.injectionStartedAt.value + x.spec.Deadline();
      if at < due then Waits(trail, due - at, r) else DueTrail(x.spec, trail, r)
  }

  ghost predicate DueTrail(spec: Spec, trail: seq<Call>, r: Outcome) {
    && |trail| >= 1 && trail[0].Renew? && trail[0].op == spec.operator
    && if trail[0].result.Granted? then RevertTrail(spec, trail[1..], r) else AbortTrail(spec.operator, Observing, trail[1..], r)
  }

  ghost predicate RevertTrail(spec: Spec, trail: seq<Call>, r: Outcome) {
    && |trail| >= 1 && trail[0].Revert?
    && if !trail[0].ok then |trail| == 1 && r == RequeueAfter(REVERT_RETRY_INTERVAL)
       else
         && |trail| == 2 && trail[1].StatusUpdate?
         && trail[1].st.phase.Observing? && trail[1].st.faultRevertedAt.Some?
         && r == (if trail[1].ok then RequeueAfter(Capped(spec.Recovery())) else Failed)
  }

  ghost predicate EvaluateTrail(op: Operator, trail: seq<Call>, r: Outcome) {
    PersistThenRelease(op, trail, r) && trail[0].st.phase.Complete? && trail[0].st.endTime.Some?
  }

  /** At time `at`: polling goes on until everything is reconciled or the deadline, counted
      from the recorded start, has passed. */
  ghost predicate PostCheckTrail(x: Experiment, checks: Checks, at: int, trail: seq<Call>, r: Outcome) {
    var s := x.status;
    if s.postCheckStartedAt.None? then
      && Advances(trail, SteadyStatePost, r, IMMEDIATE_REQUEUE)
      && trail[0].st.postCheckStartedAt == Some(at) && trail[0].st.postCheckCycles == 0
    else if checks.poll.PollFailed? then AbortTrail(x.spec.operator, SteadyStatePost, trail, r)
    else if checks.poll == Polled(false) && at < s.postCheckStartedAt.value + x.spec.Recovery() then
      && Advances(trail, SteadyStatePost, r, POST_CHECK_POLL_INTERVAL)
      && trail[0].st.postCheckCycles == s.postCheckCycles + 1
    else if checks.finalCheck.None? then AbortTrail(x.spec.operator, SteadyStatePost, trail, r)
    else EvaluateTrail(x.spec.operator, trail, r)
  }

  ghost predicate ReevaluateTrail(x: Experiment, checks: Checks, trail: seq<Call>, r: Outcome) {
    if checks.poll.PollFailed? || checks.finalCheck.None? then AbortTrail(x.spec.operator, Evaluating, trail, r)
    else EvaluateTrail(x.spec.operator, trail, r)
  }

  /** The finalizer goes only after a revert that succeeded, and the lock in between. */
  ghost predicate DeletionTrail(x: Experiment, trail: seq<Call>, r: Outcome) {
    if !x.finalizer then trail == [] && r.Done?
    else
      && |trail| >= 2 && trail[0].Revert?
      && if !trail[0].ok then |trail| == 2 && trail[1].StatusUpdate? && trail[1].st.cleanupError && r.Failed?
         else
           && |trail| == 3 && trail[1].Release? && trail[1].op == x.spec.operator && trail[2].FinalizerUpdate? && !trail[2].present
           && r == (if trail[2].ok then Done else Failed)
  }

  /** An aborted status with a field that the interrupted abort would have written. */
  predicate Incomplete(s: Status) {
    s.message == "" || s.endTime.None? || s.injectionStartedAt.Some? || !s.completeCondition
  }

  ghost predicate BackfillTrail(x: Experiment, trail: seq<Call>, r: Outcome) {
    if x.status.phase.Aborted? && Incomplete(x.status) then
      && |trail| == 1 && trail[0].StatusUpdate?
      && trail[0].st.phase.Aborted? && !Incomplete(trail[0].st)
      && r == (if trail[0].ok then Done else Failed)
    else trail == [] && r.Done?
  }

  /** On a terminal experiment the finalizer goes after a revert attempt (Aborted only),
      then the lock is released, then missing status fields are filled in. */
  ghost predicate TerminalTrail(x: Experiment, trail: seq<Call>, r: Outcome) {
    if !x.finalizer then BackfillTrail(x, trail, r)
    else
      var k := if x.status.phase.Aborted? then 1 else 0;
      && |trail| > k && (k == 1 ==> trail[0].Revert?)
      && trail[k].FinalizerUpdate? && !trail[k].present
      && if !trail[k].ok then |trail| == k + 1 && r.Failed?
         else |trail| > k + 1 && trail[k + 1].Release? && trail[k + 1].op == x.spec.operator && BackfillTrail(x, trail[k + 2..], r)
  }

  ghost predicate DispatchTrail(x: Experiment, checks: Checks, at: int, trail: seq<Call>, r: Outcome) {
    match x.status.phase
    case Unset => PendingTrail(x, checks, trail, r)
    case Pending => PendingTrail(x, checks, trail, r)
    case SteadyStatePre => PreCheckTrail(x, checks, trail, r)
    case Injecting => InjectTrail(x, trail, r)
    case Observing => ObserveTrail(x, at, trail, r)
    case SteadyStatePost => PostCheckTrail(x, checks, at, trail, r)
    case Evaluating => ReevaluateTrail(x, checks, trail, r)
    case _ => AbortTrail(x.spec.operator, x.status.phase, trail, r)
  }

  /** A lost lease aborts, an unreachable one is retried, a renewed one lets the phase
      handler run. */
  ghost predicate RenewedTrail(x: Experiment, checks: Checks, at: int, trail: seq<Call>, r: Outcome) {
    && |trail| >= 1 && trail[0].Renew? && trail[0].op == x.spec.operator
    && if trail[0].result.HolderMismatch? || trail[0].result.LockNotFound? then
         AbortTrail(x.spec.operator, x.status.phase, trail[1..], r)
       else if trail[0].result.Granted? then DispatchTrail(x, checks, at, trail[1..], r)
       else |trail| == 1 && r == RequeueAfter(LEASE_RETRY_REQUEUE)
  }

  /** After the object was read, or could not be: one that is gone is done with, and an unreachable one
      is tried again. */
  ghost predicate ReadTrail(seen: Option<Experiment>, checks: Checks, at: int, trail: seq<Call>, r: Outcome) {
    && |trail| >= 1 && trail[0].Read? && trail[0].x == seen
    && (seen.None? ==> r == if trail[0].err.NotFound? then Done else Failed)
    && ReconcileTrail(seen, checks, at, trail[1..], r)
  }

  ghost predicate ReconcileTrail(seen: Option<Experiment>, checks: Checks, at: int, trail: seq<Call>, r: Outcome) {
    if seen.None? then trail == [] && !r.RequeueAfter?
    else
      var x := seen.value;
      if x.deleting then DeletionTrail(x, trail, r)
      else if Terminal(x.status.phase) then TerminalTrail(x, trail, r)
      else RunningTrail(x, checks, at, trail, r)
  }

  /** An experiment that has not ended is aborted if its spec was edited. */
  ghost predicate RunningTrail(x: Experiment, checks: Checks, at: int, trail: seq<Call>, r: Outcome) {
    if x.status.observedGeneration != 0 && x.generation != x.status.observedGeneration then
      AbortTrail(x.spec.operator, x.status.phase, trail, r)
    else CurrentTrail(x, checks, at, trail, r)
  }

  ghost predicate CurrentTrail(x: Experiment, checks: Checks, at: int, trail: seq<Call>, r: Outcome) {
    if x.status.phase.Pending? || x.status.phase.Unset? then PendingTrail(x, checks, trail, r)
    else RenewedTrail(x, checks, at, trail, r)
  }

  class ExperimentReconciler {
    const api: Client
    const lock: LeaseExperimentLock

    constructor (api: Client, lock: LeaseExperimentLock)
      requires lock.client == api
      ensures this.api == api && this.lock == lock
    {
      this.api, this.lock := api, lock;
    }

    ghost predicate Ready(x: Experiment, st: Status)
      reads this, api
    {
      && lock.client == api && api.Valid() && api.Known(x) && !x.deleting && !x.Mutated()
      && st == x.status.(observedGeneration := x.generation)
    }

    method Abort(x: Experiment, st: Status, reason: string) returns (r: Outcome)
      requires lock.client == api && api.Valid() && api.Known(x) && !x.deleting && SameGeneration(x, st)
      requires !Terminal(x.status.phase)
      requires st == x.status.(observedGeneration := st.observedGeneration, postCheckCycles := st.postCheckCycles)
      requires x.status.postCheckCycles <= st.postCheckCycles
      requires x.status.phase.Injecting? ==> st.postCheckCycles == x.status.postCheckCycles
      requires x.status.phase.Observing? ==> MayRevert(api.w, api.me)
      modifies api
      ensures api.Valid() && old(api.trace) <= api.trace && old(api.calls) <= api.calls
      ensures AbortTrail(x.spec.operator, x.status.phase, api.calls[|old(api.calls)|..], r)
    {
      assert ExperimentInv(api.w, api.me);
      if st.phase.Injecting? {
        r := AbortInjecting(x, st, reason);
      } else {
        var revertError := false;
        if st.phase.Observing? || st.phase.SteadyStatePost? {
          var ok := api.RevertFault();
          revertError := !ok;
        }
        r := FinishAbort(x, st, reason, revertError);
      }
    }

    /** An abort during injection: the Aborted phase is the crash barrier of its revert. */
    method AbortInjecting(x: Experiment, st: Status, reason: string) returns (r: Outcome)
      requires lock.client == api && api.Valid() && api.Known(x) && !x.deleting && SameGeneration(x, st)
      requires st == x.status.(observedGeneration := st.observedGeneration) && x.status.phase.Injecting?
      modifies api
      ensures api.Valid() && old(api.trace) <= api.trace && old(api.calls) <= api.calls
      ensures AbortTrail(x.spec.operator, Injecting, api.calls[|old(api.calls)|..], r)
    {
      var barrier := st.(injectionStartedAt := None, phase := Aborted);
      var err, x' := api.UpdateStatus(x, AbortBarrier, barrier);
      if !err.NoError? {
        return Failed;
      }
      var ok := api.RevertFault();
      r := FinishAbort(x', barrier, reason, !ok);
    }

    /** The part of an abort after the revert attempt. */
    method FinishAbort(x: Experiment, st: Status, reason: string, revertError: bool) returns (r: Outcome)
      requires lock.client == api && api.Valid() && api.Known(x) && !x.deleting && SameGeneration(x, st)
      requires !x.status.phase.Injecting? && !x.status.phase.Complete?
      requires st == x.status.(observedGeneration := st.observedGeneration, postCheckCycles := st.postCheckCycles)
      requires x.status.postCheckCycles <= st.postCheckCycles
      requires api.me in api.w.active ==> revertError
      modifies api
      ensures api.Valid() && old(api.trace) <= api.trace && old(api.calls) <= api.calls
      ensures FinalAbort(x.spec.operator, api.calls[|old(api.calls)|..], revertError, r)
    {
      var now := api.Now();
      var final := st.(phase := Aborted, cleanupError := revertError, message := reason, endTime := Some(now),
                       completeCondition := true);
      var err, _ := api.UpdateStatus(x, AbortFinal, final);
      if !err.NoError? {
        return Failed;
      }
      var _, _, _ := lock.Release(x.spec.operator);
      return RequeueAfter(IMMEDIATE_REQUEUE);
    }

    method HandleDeletion(x: Experiment) returns (r: Outcome)
      requires lock.client == api && api.Valid() && api.Known(x) && x.deleting
      modifies api
      ensures api.Valid() && old(api.trace) <= api.trace && old(api.calls) <= api.calls
      ensures DeletionTrail(x, api.calls[|old(api.calls)|..], r)
    {
      if !x.finalizer {
        return Done;
      }
      var ok := api.RevertFault();
      if !ok {
        var _, _ := api.UpdateStatus(x, CleanupError, x.status.(cleanupError := true));
        return Failed;
      }
      var _, _, _ := lock.Release(x.spec.operator);
      var err, _ := api.UpdateFinalizer(x, false);
      return if err.NoError? then Done else Failed;
    }

    /** Cleanup of an experiment found in a terminal phase. */
    method CleanUpTerminal(x: Experiment) returns (r: Outcome)
      requires lock.client == api && api.Valid() && api.Known(x) && !x.deleting && Terminal(x.status.phase)
      modifies api
      ensures api.Valid() && old(api.trace) <= api.trace && old(api.calls) <= api.calls
      ensures TerminalTrail(x, api.calls[|old(api.calls)|..], r)
    {
      if !x.finalizer {
        r := Backfill(x);
        return;
      }
      if x.status.phase.Aborted? {
        var _ := api.RevertFault();
      }
      r := Detach(x);
    }

    /** The finalizer of a terminal experiment goes, then its lock; then missing fields are filled in. */
    method Detach(x: Experiment) returns (r: Outcome)
      requires lock.client == api && api.Valid() && api.Known(x) && !x.deleting && Terminal(x.status.phase) && x.finalizer
      requires x.status.phase.Aborted? && api.me in api.w.active ==> api.me in api.w.revertFailed
      modifies api
      ensures api.Valid() && old(api.trace) <= api.trace && old(api.calls) <= api.calls
      ensures var trail := api.calls[|old(api.calls)|..];
        && |trail| > 0 && trail[0].FinalizerUpdate? && !trail[0].present
        && if !trail[0].ok then |trail| == 1 && r.Failed?
           else |trail| > 1 && trail[1].Release? && trail[1].op == x.spec.operator && BackfillTrail(x, trail[2..], r)
    {
      var err, x' := api.UpdateFinalizer(x, false);
      if !err.NoError? {
        return Failed;
      }
      var _, _, _ := lock.Release(x.spec.operator);
      r := Backfill(x');
    }

    /** Fills in what an abort that crashed after its barrier left out. */
    method Backfill(x: Experiment) returns (r: Outcome)
      requires lock.client == api && api.Valid() && api.Known(x) && !x.deleting && Terminal(x.status.phase)
      modifies api
      ensures api.Valid() && old(api.trace) <= api.trace && old(api.calls) <= api.calls
      ensures BackfillTrail(x, api.calls[|old(api.calls)|..], r)
    {
      if !x.status.phase.Aborted? {
        return Done;
      }
      var st, statusChanged := FillIn(x);
      if statusChanged {
        var err, _ := api.UpdateStatus(x, AbortBackfill, st);
        return if err.NoError? then Done else Failed;
      }
      return Done;
    }

    method FillIn(x: Experiment) returns (st: Status, statusChanged: bool)
      requires api.Valid() && api.Known(x) && x.status.phase.Aborted?
      modifies api`w, api`trace, api`moves
      ensures api.Valid() && api.Known(x) && old(api.trace) <= api.trace
      ensures statusChanged <==> Incomplete(x.status)
      ensures BackfillsAbort(x, st, FactsOf(api.w, api.me))
    {
      st, statusChanged := x.status, false;
      if st.message == "" {
        st := st.(message := "experiment aborted (recovered after crash)");
        statusChanged := true;
      }
      if st.endTime.None? {
        var now := api.Now();
        st := st.(endTime := Some(now));
        statusChanged := true;
      }
      if st.injectionStartedAt.Some? {
        st := st.(injectionStartedAt := None);
        statusChanged := true;
      }
      if !st.completeCondition {
        st := st.(completeCondition := true);
        statusChanged := true;
      }
    }

    method ReconcilePending(x: Experiment, st: Status, checks: Checks) returns (r: Outcome)
      requires Ready(x, st) && (x.status.phase.Unset? || x.status.phase.Pending?)
      modifies api
      ensures api.Valid() && old(api.trace) <= api.trace && old(api.calls) <= api.calls
      ensures PendingTrail(x, checks, api.calls[|old(api.calls)|..], r)
    {
      if !checks.valid {
        r := Abort(x, st, "validation failed");
        return;
      }
      // The lease must cover the whole run: the fault's TTL, then the recovery window,
      // then the post-check.
      var leaseDuration := x.spec.Recovery() * 2;
      if x.spec.ttl > 0 {
        leaseDuration := x.spec.ttl + x.spec.Recovery() * 2;
      }
      var granted, _, _ := lock.Acquire(x.spec.operator, leaseDuration);
      if !granted.Granted? {
        return if granted.Contention? then RequeueAfter(LOCK_CONTENTION_REQUEUE) else Failed;
      }
      r := StartPreCheck(x, st);
    }

    method StartPreCheck(x: Experiment, st: Status) returns (r: Outcome)
      requires Ready(x, st) && (x.status.phase.Unset? || x.status.phase.Pending?)
      modifies api
      ensures api.Valid() && old(api.trace) <= api.trace && old(api.calls) <= api.calls
      ensures Advances(api.calls[|old(api.calls)|..], SteadyStatePre, r, IMMEDIATE_REQUEUE)
    {
      var now := api.Now();
      var next := st.(startTime := Some(now), phase := SteadyStatePre, message := "Running pre-checks");
      var err, _ := api.UpdateStatus(x, ToPreCheck, next);
      return if err.NoError? then RequeueAfter(IMMEDIATE_REQUEUE) else Failed;
    }

    method ReconcilePreCheck(x: Experiment, st: Status, checks: Checks) returns (r: Outcome)
      requires Ready(x, st) && x.status.phase.SteadyStatePre?
      modifies api
      ensures api.Valid() && old(api.trace) <= api.trace && old(api.calls) <= api.calls
      ensures PreCheckTrail(x, checks, api.calls[|old(api.calls)|..], r)
    {
      if checks.preCheck.None? {
        r := Abort(x, st, "pre-check error");
        return;
      }
      if !checks.preCheck.value {
        r := Abort(x, st, "pre-check failed: steady-state not established");
        return;
      }
      var err, _ := api.UpdateStatus(x, ToInjecting, st.(phase := Injecting));
      return if err.NoError? then RequeueAfter(IMMEDIATE_REQUEUE) else Failed;
    }

    /** The injection start on record was read from the clock in this reconcile. */
    ghost predicate JustStarted(x: Experiment)
      reads this, api
    {
      && x.status.injectionStartedAt.Some? && api.me in api.w.began
      && api.w.began[api.me] <= x.status.injectionStartedAt.value <= api.w.now
    }

    method ReconcileInject(x: Experiment, st: Status) returns (r: Outcome)
      requires Ready(x, st) && x.status.phase.Injecting? && api.HeldWhileCurrent(x)
      modifies api
      ensures api.Valid() && old(api.trace) <= api.trace && old(api.calls) <= api.calls
      ensures InjectTrail(x, api.calls[|old(api.calls)|..], r)
    {
      if st.injectionStartedAt.Some? {
        r := ResumeAfterBarrier(x, st);
        return;
      }
      r := StartInjection(x, st);
    }

    /** The start is persisted before the fault is injected: the crash barrier. */
    method StartInjection(x: Experiment, st: Status) returns (r: Outcome)
      requires Ready(x, st) && x.status.phase.Injecting? && x.status.injectionStartedAt.None? && api.HeldWhileCurrent(x)
      modifies api
      ensures api.Valid() && old(api.trace) <= api.trace && old(api.calls) <= api.calls
      ensures InjectTrail(x, api.calls[|old(api.calls)|..], r)
    {
      assert ExperimentInv(api.w, api.me);
      var now := api.Now();
      var err, x' := api.UpdateStatus(x, InjectionStart, st.(injectionStartedAt := Some(now)));
      if !err.NoError? {
        return Failed;
      }
      if x'.finalizer {
        r := InjectAndObserve(x');
      } else {
        r := AddFinalizerAndInject(x');
      }
    }

    /** Behind the barrier: the finalizer goes on before the fault goes in. */
    method AddFinalizerAndInject(x: Experiment) returns (r: Outcome)
      requires lock.client == api && api.Valid() && api.Known(x) && !x.deleting && !x.finalizer
      requires x.status.phase.Injecting? && JustStarted(x) && api.me !in api.w.injected
      modifies api
      ensures api.Valid() && old(api.trace) <= api.trace && old(api.calls) <= api.calls
      ensures FinalizerTrail(x.spec.operator, api.calls[|old(api.calls)|..], r)
    {
      var err, x' := api.UpdateFinalizer(x, true);
      if !err.NoError? {
        return Failed;
      }
      err, x' := api.UpdateStatus(x', Generation, x'.status.(observedGeneration := x'.generation));
      if !err.NoError? {
        return Failed;
      }
      r := InjectAndObserve(x');
    }

    /** Re-entry after a crash between the barrier and the end of injection. */
    method ResumeAfterBarrier(x: Experiment, st: Status) returns (r: Outcome)
      requires Ready(x, st) && x.status.phase.Injecting? && x.status.injectionStartedAt.Some?
      modifies api
      ensures api.Valid() && old(api.trace) <= api.trace && old(api.calls) <= api.calls
      ensures InjectTrail(x, api.calls[|old(api.calls)|..], r)
    {
      var err, x' := NoError, x;
      if !x.finalizer {
        err, x' := api.UpdateFinalizer(x, true);
        if !err.NoError? {
          return Failed;
        }
      }
      var next := x'.status.(observedGeneration := x'.generation, phase := Observing);
      err, x' := api.UpdateStatus(x', ToObserving, next);
      return if err.NoError? then RequeueAfter(IMMEDIATE_REQUEUE) else Failed;
    }

    /** The fault itself, with the barrier and the finalizer in place. */
    method InjectAndObserve(x: Experiment) returns (r: Outcome)
      requires lock.client == api && api.Valid() && api.Known(x) && !x.deleting
      requires x.status.phase.Injecting? && JustStarted(x) && x.finalizer && api.me !in api.w.injected
      requires x.status.observedGeneration == x.generation
      modifies api
      ensures api.Valid() && old(api.trace) <= api.trace && old(api.calls) <= api.calls
      ensures FaultTrail(x.spec.operator, api.calls[|old(api.calls)|..], r)
    {
      assert ExperimentInv(api.w, api.me);
      var ok := api.InjectFault();
      if !ok {
        r := AbortInjecting(x, x.status, "injection failed");
        return;
      }
      var next := x.status.(phase := Observing, message := "Fault injected, observing recovery");
      var err, _ := api.UpdateStatus(x, ToObserving, next);
      return if err.NoError? then RequeueAfter(IMMEDIATE_REQUEUE) else Failed;
    }

    method ReconcileObserve(x: Experiment, st: Status) returns (r: Outcome, ghost at: int)
      requires Ready(x, st) && x.status.phase.Observing?
      modifies api
      ensures api.Valid() && old(api.trace) <= api.trace && old(api.calls) <= api.calls
      ensures ObserveTrail(x, at, api.calls[|old(api.calls)|..], r)
      ensures old(api.w).now <= at && Showed(api.trace, |old(api.trace)| - 1, at)
    {
      at := api.w.now;
      if st.injectionStartedAt.None? {
        r := Abort(x, st, "InjectionStartedAt is nil in Observing phase");
        return;
      }
      var now := api.Now();
      at := now;
      var recoveryTimeout := x.spec.Recovery();
      if st.faultRevertedAt.Some? {
        var windowElapsed := now - st.faultRevertedAt.value;
        if windowElapsed < recoveryTimeout {
          return RequeueAfter(Capped(recoveryTimeout - windowElapsed)), now;
        }
        var err, _ := api.UpdateStatus(x, ToPostCheck, st.(phase := SteadyStatePost));
        return if err.NoError? then RequeueAfter(IMMEDIATE_REQUEUE) else Failed, now;
      }
      var elapsed := now - st.injectionStartedAt.value;
      var deadline := if x.spec.ttl > 0 then x.spec.ttl else recoveryTimeout;
      if elapsed < deadline {
        return RequeueAfter(Capped(deadline - elapsed)), now;
      }
      r := RevertInTime(x, st);
    }

    /** The fault is due: confirm the lease, revert, record the revert time. */
    method RevertInTime(x: Experiment, st: Status) returns (r: Outcome)
      requires Ready(x, st) && x.status.phase.Observing?
      requires x.status.injectionStartedAt.Some? && x.status.faultRevertedAt.None?
      requires x.status.injectionStartedAt.value + x.spec.Deadline() <= api.w.now
      modifies api
      ensures api.Valid() && old(api.trace) <= api.trace && old(api.calls) <= api.calls
      ensures DueTrail(x.spec, api.calls[|old(api.calls)|..], r)
    {
      var renewed, _, _ := lock.Renew(x.spec.operator);
      if !renewed.Granted? {
        r := Abort(x, st, "pre-revert lease check failed");
        return;
      }
      r := RevertAndRecord(x, st);
    }

    /** A failed revert is retried on the next reconcile, with the lease kept. */
    method RevertAndRecord(x: Experiment, st: Status) returns (r: Outcome)
      requires Ready(x, st) && x.status.phase.Observing? && api.HeldWhileCurrent(x)
      requires x.status.injectionStartedAt.Some? && x.status.faultRevertedAt.None?
      requires x.status.injectionStartedAt.value + x.spec.Deadline() <= api.w.now
      modifies api
      ensures api.Valid() && old(api.trace) <= api.trace && old(api.calls) <= api.calls
      ensures RevertTrail(x.spec, api.calls[|old(api.calls)|..], r)
    {
      var ok := api.RevertFault();
      if !ok {
        return RequeueAfter(REVERT_RETRY_INTERVAL);
      }
      var revertTime := api.Now();
      var err, _ := api.UpdateStatus(x, RevertTime, st.(faultRevertedAt := Some(revertTime)));
      return if err.NoError? then RequeueAfter(Capped(x.spec.Recovery())) else Failed;
    }

    method ReconcilePostCheck(x: Experiment, st: Status, checks: Checks) returns (r: Outcome, ghost at: int)
      requires Ready(x, st) && x.status.phase.SteadyStatePost?
      modifies api
      ensures api.Valid() && old(api.trace) <= api.trace && old(api.calls) <= api.calls
      ensures PostCheckTrail(x, checks, at, api.calls[|old(api.calls)|..], r)
      ensures old(api.w).now <= at && Showed(api.trace, |old(api.trace)| - 1, at)
    {
      assert ExperimentInv(api.w, api.me);
      var now := api.Now();
      at := now;
      if st.postCheckStartedAt.None? {
        // The start is recorded before any work, so that a crash does not restart it.
        var first := st.(postCheckStartedAt := Some(now), postCheckCycles := 0);
        var err, _ := api.UpdateStatus(x, PostCheckStart, first);
        r := if err.NoError? then RequeueAfter(IMMEDIATE_REQUEUE) else Failed;
        return;
      }
      r := PollAndEvaluate(x, st, checks, now);
    }

    /** One poll of the resources, at time now, and the evaluation if it was the last. */
    method PollAndEvaluate(x: Experiment, st: Status, checks: Checks, now: int) returns (r: Outcome)
      requires Ready(x, st) && x.status.phase.SteadyStatePost? && x.status.postCheckStartedAt.Some?
      modifies api
      ensures api.Valid() && old(api.trace) <= api.trace && old(api.calls) <= api.calls
      ensures PostCheckTrail(x, checks, now, api.calls[|old(api.calls)|..], r)
    {
      if checks.poll.PollFailed? {
        r := Abort(x, st, "post-check error");
        return;
      }
      var next := st.(postCheckCycles := st.postCheckCycles + 1);
      var allReconciled := checks.poll.NothingToPoll? || checks.poll.allReconciled;
      var deadlinePassed := now - st.postCheckStartedAt.value >= x.spec.Recovery();
      if !allReconciled && !deadlinePassed {
        var err, _ := api.UpdateStatus(x, PostCheckCycle, next);
        r := if err.NoError? then RequeueAfter(POST_CHECK_POLL_INTERVAL) else Failed;
        return;
      }
      if checks.finalCheck.None? {
        r := Abort(x, next, "post-check error");
        return;
      }
      r := DoEvaluate(x, next);
    }

    /** Crash recovery: the findings are rebuilt and evaluated. */
    method ReconcileEvaluate(x: Experiment, st: Status, checks: Checks) returns (r: Outcome)
      requires Ready(x, st) && x.status.phase.Evaluating?
      modifies api
      ensures api.Valid() && old(api.trace) <= api.trace && old(api.calls) <= api.calls
      ensures ReevaluateTrail(x, checks, api.calls[|old(api.calls)|..], r)
    {
      if checks.poll.PollFailed? || checks.finalCheck.None? {
        r := Abort(x, st, "evaluation post-check error");
        return;
      }
      r := DoEvaluate(x, st);
    }

    method DoEvaluate(x: Experiment, st: Status) returns (r: Outcome)
      requires lock.client == api && api.Valid() && api.Known(x) && !x.deleting && Follows(x, st)
      requires x.status.phase.SteadyStatePost? || x.status.phase.Evaluating?
      requires x.status.postCheckStartedAt.Some? || x.status.phase.Evaluating?
      requires st == x.status.(observedGeneration := st.observedGeneration, postCheckCycles := st.postCheckCycles)
      requires x.status.postCheckCycles <= st.postCheckCycles
      modifies api
      ensures api.Valid() && old(api.trace) <= api.trace && old(api.calls) <= api.calls
      ensures EvaluateTrail(x.spec.operator, api.calls[|old(api.calls)|..], r)
    {
      assert ExperimentInv(api.w, api.me);
      var now := api.Now();
      var final := st.(endTime := Some(now), message := "Experiment complete", completeCondition := true,
                       phase := Complete);
      var err, _ := api.UpdateStatus(x, Completion, final);
      if !err.NoError? {
        return Failed;
      }
      var _, _, _ := lock.Release(x.spec.operator);
      return RequeueAfter(IMMEDIATE_REQUEUE);
    }

    method Dispatch(x: Experiment, st: Status, checks: Checks) returns (r: Outcome, ghost at: int)
      requires Ready(x, st) && !Terminal(x.status.phase) && (x.status.phase.Injecting? ==> api.HeldWhileCurrent(x))
      modifies api
      ensures api.Valid() && old(api.trace) <= api.trace && old(api.calls) <= api.calls
      ensures DispatchTrail(x, checks, at, api.calls[|old(api.calls)|..], r)
      ensures old(api.w).now <= at && Showed(api.trace, |old(api.trace)| - 1, at)
    {
      at := api.w.now;
      var phase := x.status.phase;
      if phase.Unset? || phase.Pending? {
        r := ReconcilePending(x, st, checks);
      } else if phase.SteadyStatePre? {
        r := ReconcilePreCheck(x, st, checks);
      } else if phase.Injecting? {
        r := ReconcileInject(x, st);
      } else if phase.Observing? {
        r, at := ReconcileObserve(x, st);
      } else if phase.SteadyStatePost? {
        r, at := ReconcilePostCheck(x, st, checks);
      } else if phase.Evaluating? {
        r := ReconcileEvaluate(x, st, checks);
      } else {
        r := Abort(x, st, "unknown phase");
      }
    }

    /** One reconcile of one experiment.  seen is the object it was given to work on, at
        the time the handler read from the clock. */
    method Reconcile(checks: Checks) returns (r: Outcome, ghost seen: Option<Experiment>, ghost at: int)
      requires lock.client == api && api.Valid()
      modifies api
      ensures api.Valid() && old(api.trace) <= api.trace && old(api.calls) <= api.calls
      ensures ReadTrail(seen, checks, at, api.calls[|old(api.calls)|..], r)
      ensures old(api.w).now <= at && Showed(api.trace, |old(api.trace)| - 1, at)
    {
      api.BeginReconcile();
      var err, got := api.Get();
      seen, at := got, api.w.now;
      ghost var read := api.calls;
      if got.None? {
        r := if err.NotFound? then Done else Failed;
      } else {
        r, at := ReconcileRead(got.value, checks);
      }
      assert api.calls[|old(api.calls)|..] == [Call.Read(err, got)] + api.calls[|read|..];
    }

    /** What is done about the object that was read. */
    method ReconcileRead(x: Experiment, checks: Checks) returns (r: Outcome, ghost at: int)
      requires lock.client == api && api.Valid() && api.Known(x)
      modifies api
      ensures api.Valid() && old(api.trace) <= api.trace && old(api.calls) <= api.calls
      ensures ReconcileTrail(Some(x), checks, at, api.calls[|old(api.calls)|..], r)
      ensures old(api.w).now <= at && Showed(api.trace, |old(api.trace)| - 1, at)
    {
      at := api.w.now;
      assert api.trace[|old(api.trace)| - 1].now == at;
      if x.deleting {
        r := HandleDeletion(x);
      } else if Terminal(x.status.phase) {
        r := CleanUpTerminal(x);
      } else {
        r, at := ReconcileRunning(x, checks);
      }
    }

    /** An experiment that has not ended. */
    method ReconcileRunning(x: Experiment, checks: Checks) returns (r: Outcome, ghost at: int)
      requires lock.client == api && api.Valid() && api.Known(x) && !x.deleting && !Terminal(x.status.phase)
      modifies api
      ensures api.Valid() && old(api.trace) <= api.trace && old(api.calls) <= api.calls
      ensures RunningTrail(x, checks, at, api.calls[|old(api.calls)|..], r)
      ensures old(api.w).now <= at && Showed(api.trace, |old(api.trace)| - 1, at)
    {
      at := api.w.now;
      assert api.trace[|old(api.trace)| - 1].now == at;
      if x.status.observedGeneration != 0 && x.generation != x.status.observedGeneration {
        r := Abort(x, x.status, "spec mutated after experiment started");
      } else {
        r, at := ReconcileCurrent(x, checks);
      }
    }

    /** An experiment whose spec is the one it started with. */
    method ReconcileCurrent(x: Experiment, checks: Checks) returns (r: Outcome, ghost at: int)
      requires lock.client == api && api.Valid() && api.Known(x) && !x.deleting && !Terminal(x.status.phase) && !x.Mutated()
      modifies api
      ensures api.Valid() && old(api.trace) <= api.trace && old(api.calls) <= api.calls
      ensures CurrentTrail(x, checks, at, api.calls[|old(api.calls)|..], r)
      ensures old(api.w).now <= at && Showed(api.trace, |old(api.trace)| - 1, at)
    {
      at := api.w.now;
      var st := x.status.(observedGeneration := x.generation);
      if x.status.phase.Pending? || x.status.phase.Unset? {
        r := ReconcilePending(x, st, checks);
      } else {
        r, at := RenewAndDispatch(x, st, checks);
      }
    }

    /** Past Pending, the lease is renewed before anything else is done. */
    method RenewAndDispatch(x: Experiment, st: Status, checks: Checks) returns (r: Outcome, ghost at: int)
      requires Ready(x, st) && !Terminal(x.status.phase) && !x.status.phase.Pending? && !x.status.phase.Unset?
      modifies api
      ensures api.Valid() && old(api.trace) <= api.trace && old(api.calls) <= api.calls
      ensures RenewedTrail(x, checks, at, api.calls[|old(api.calls)|..], r)
      ensures api.calls[|old(api.calls)|].result.Granted? ==>
        Refreshed(api.trace, |old(api.trace)|, x.spec.operator, api.me, old(api.w).now)
      ensures old(api.w).now <= at && Showed(api.trace, |old(api.trace)| - 1, at)
    {
      at := api.w.now;
      var renewed, _, _ := lock.Renew(x.spec.operator);
      if renewed.HolderMismatch? || renewed.LockNotFound? {
        r := Abort(x, st, "lease renewal failed");
      } else if !renewed.Granted? {
        r := RequeueAfter(LEASE_RETRY_REQUEUE);
      } else {
        ghost var renewal := api.calls;
        r, at := Dispatch(x, st, checks);
        assert api.calls[|old(api.calls)|..][1..] == api.calls[|renewal|..];
      }
    }
  }
}
