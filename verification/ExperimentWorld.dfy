/** The persisted state behind the experiment protocol: the API server's leases and
    experiment objects, the clock, and what is known of the injected faults.  Every
    effect that a controller worker or a lock caller can have on that state is one
    value of `Effect`, with the condition under which the protocol may issue it
    (`Enabled`) and its result (`Apply`).  Times and durations are milliseconds. */
module ExperimentWorld {
  import opened Wrappers

  type Name = string      // experiment name, which is also the lease holder identity
  type Operator = string

  const SECOND := 1000
  const DEFAULT_RECOVERY_TIMEOUT := 60 * SECOND
  const DEFAULT_LEASE_SECONDS := 900

  // --- experiments ---

  datatype Phase =
    | Unset | Pending | SteadyStatePre | Injecting | Observing
    | SteadyStatePost | Evaluating | Complete | Aborted
    | Unrecognized

  predicate Terminal(p: Phase) {
    p.Complete? || p.Aborted?
  }

  /** The phases in which the pre-check is behind and the experiment is still running. */
  predicate PastPreCheck(p: Phase) {
    p.Injecting? || p.Observing? || p.SteadyStatePost? || p.Evaluating?
  }

  datatype Spec = Spec(operator: Operator, ttl: int, recoveryTimeout: int)
  {
    function Recovery(): int {
      if recoveryTimeout > 0 then recoveryTimeout else DEFAULT_RECOVERY_TIMEOUT
    }

    /** How long a fault stays active before it is due for its revert. */
    function Deadline(): int {
      if ttl > 0 then ttl else Recovery()
    }
  }

  datatype Status = Status(
    phase: Phase,
    observedGeneration: nat,
    message: string,
    startTime: Option<int>,
    injectionStartedAt: Option<int>,
    faultRevertedAt: Option<int>,
    postCheckStartedAt: Option<int>,
    postCheckCycles: nat,
    endTime: Option<int>,
    cleanupError: bool,
    completeCondition: bool)

  datatype Experiment = Experiment(
    spec: Spec,
    rv: nat,
    generation: nat,
    deleting: bool,
    finalizer: bool,
    gone: bool,
    status: Status)
  {
    /** Running, past the crash barrier, and nobody has asked for its deletion. */
    predicate Live() {
      !gone && !deleting && !Terminal(status.phase) && status.injectionStartedAt.Some?
    }

    predicate Guarded() {
      !gone && !deleting && PastPreCheck(status.phase)
    }

    /** The spec is not the one that the last reconcile recorded. */
    predicate Mutated() {
      status.observedGeneration != 0 && generation != status.observedGeneration
    }
  }

  // --- leases ---

  datatype Lease = Lease(
    rv: nat,
    holder: Option<Name>,
    durationSeconds: Option<int>,
    acquireTime: Option<int>,
    renewTime: Option<int>)
  {
    function LastActive(): Option<int> {
      if renewTime.Some? then renewTime else acquireTime
    }

    predicate Expired(now: int) {
      durationSeconds.None? || LastActive().None? ||
      now > LastActive().value + durationSeconds.value * SECOND
    }
  }

  // --- the world ---

  datatype World = World(
    now: int,
    rev: nat,                        // revision counter: every applied write takes the next one
    leases: map<Operator, Lease>,
    exps: map<Name, Experiment>,
    active: set<Name>,               // experiments whose fault is in place
    injected: set<Name>,             // experiments for which InjectFault has been called
    revertFailed: set<Name>,         // experiments whose latest RevertFault call failed
    began: map<Name, int>,           // when the latest reconcile of an experiment began
    reverted: map<Name, int>)        // when RevertFault last succeeded
  {
    predicate HeldBy(op: Operator, e: Name) {
      op in leases && leases[op].holder == Some(e)
    }

    predicate Present(e: Name) {
      e in exps && !exps[e].gone
    }
  }

  /** Only an experiment that has not left Pending acquires; lock callers that are not
      experiment objects (command line runs) are free to. */
  predicate MayAcquire(w: World, a: Name) {
    a in w.exps ==> w.exps[a].status.phase.Unset? || w.exps[a].status.phase.Pending?
  }

  predicate MayRelease(w: World, a: Name) {
    a in w.exps ==> w.exps[a].gone || w.exps[a].deleting || Terminal(w.exps[a].status.phase)
  }

  // --- status transitions ---

  /** What a status write may rely on. */
  datatype Facts = Facts(now: int, began: int, active: bool, held: bool, reverted: Option<int>)
  {
    /** A time read from the clock in this reconcile. */
    predicate Stamped(t: Option<int>) {
      t.Some? && began <= t.value <= now
    }
  }

  function FactsOf(w: World, e: Name): Facts
    requires e in w.exps && e in w.began
  {
    Facts(w.now, w.began[e], e in w.active, w.HeldBy(w.exps[e].spec.operator, e),
          if e in w.reverted then Some(w.reverted[e]) else None)
  }

  /** An abort may be of a spec that was edited, and then leaves the generation on record. */
  predicate SameGeneration(x: Experiment, st: Status) {
    st.observedGeneration == x.status.observedGeneration || st.observedGeneration == x.generation
  }

  /** All other writes record the generation of the spec they follow. */
  predicate Follows(x: Experiment, st: Status) {
    !x.Mutated() && st.observedGeneration == x.generation
  }

  predicate BeginsPreCheck(x: Experiment, st: Status, f: Facts) {
    var s := x.status;
    && (s.phase.Unset? || s.phase.Pending?) && Follows(x, st)
    && st == s.(phase := SteadyStatePre, observedGeneration := st.observedGeneration,
                message := st.message, startTime := st.startTime)
    && f.Stamped(st.startTime)
  }

  predicate BeginsInjecting(x: Experiment, st: Status) {
    x.status.phase.SteadyStatePre? && Follows(x, st) &&
    st == x.status.(phase := Injecting, observedGeneration := st.observedGeneration)
  }

  /** The crash barrier: the injection start is recorded before the fault is injected. */
  predicate RecordsInjectionStart(x: Experiment, st: Status, f: Facts) {
    var s := x.status;
    && s.phase.Injecting? && s.injectionStartedAt.None? && f.held && Follows(x, st)
    && st == s.(observedGeneration := st.observedGeneration, injectionStartedAt := st.injectionStartedAt)
    && f.Stamped(st.injectionStartedAt)
  }

  /** Adding the finalizer may have changed the generation. */
  predicate RecordsGeneration(x: Experiment, st: Status) {
    x.status.phase.Injecting? && x.status.injectionStartedAt.Some? &&
    st == x.status.(observedGeneration := x.generation)
  }

  predicate BeginsObserving(x: Experiment, st: Status) {
    var s := x.status;
    && s.phase.Injecting? && s.injectionStartedAt.Some? && x.finalizer
    && st == s.(phase := Observing, observedGeneration := x.generation, message := st.message)
  }

  /** A revert that succeeded in this reconcile, under a lease that is held, when it was due. */
  predicate RecordsRevert(x: Experiment, st: Status, f: Facts) {
    var s := x.status;
    && s.phase.Observing? && s.injectionStartedAt.Some? && s.faultRevertedAt.None? && !f.active && f.held && Follows(x, st)
    && st == s.(observedGeneration := st.observedGeneration, faultRevertedAt := st.faultRevertedAt)
    && f.Stamped(st.faultRevertedAt) && f.Stamped(f.reverted) && f.reverted.value <= st.faultRevertedAt.value
    && s.injectionStartedAt.value + x.spec.Deadline() <= st.faultRevertedAt.value
  }

  predicate BeginsPostCheck(x: Experiment, st: Status, f: Facts) {
    var s := x.status;
    && s.phase.Observing? && s.faultRevertedAt.Some? && Follows(x, st)
    && s.faultRevertedAt.value + x.spec.Recovery() <= f.now
    && st == s.(phase := SteadyStatePost, observedGeneration := st.observedGeneration)
  }

  predicate RecordsPostCheckStart(x: Experiment, st: Status, f: Facts) {
    var s := x.status;
    && s.phase.SteadyStatePost? && s.faultRevertedAt.Some? && s.postCheckStartedAt.None? && Follows(x, st)
    && st == s.(observedGeneration := st.observedGeneration, postCheckCycles := 0,
                postCheckStartedAt := st.postCheckStartedAt)
    && f.Stamped(st.postCheckStartedAt)
    && s.faultRevertedAt.value + x.spec.Recovery() <= st.postCheckStartedAt.value
  }

  predicate CountsPostCheckCycle(x: Experiment, st: Status) {
    var s := x.status;
    && s.phase.SteadyStatePost? && s.postCheckStartedAt.Some? && Follows(x, st)
    && st == s.(observedGeneration := st.observedGeneration, postCheckCycles := s.postCheckCycles + 1)
  }

  predicate Completes(x: Experiment, st: Status, f: Facts) {
    var s := x.status;
    && (s.phase.SteadyStatePost? || s.phase.Evaluating?) && s.postCheckStartedAt.Some? && Follows(x, st)
    && st == s.(phase := Complete, observedGeneration := st.observedGeneration, message := st.message,
                postCheckCycles := st.postCheckCycles, endTime := st.endTime, completeCondition := true)
    && s.postCheckCycles <= st.postCheckCycles
    && f.Stamped(st.endTime) && s.postCheckStartedAt.value <= st.endTime.value
  }

  /** The crash barrier of an abort during injection. */
  predicate RecordsAbort(x: Experiment, st: Status) {
    x.status.phase.Injecting? &&
    st == x.status.(phase := Aborted, observedGeneration := st.observedGeneration, injectionStartedAt := None)
  }

  /** The full terminal status of an abort; no recorded cleanup error means no fault. */
  predicate FinishesAbort(x: Experiment, st: Status, f: Facts) {
    var s := x.status;
    && !s.phase.Injecting? && !s.phase.Complete?
    && st == s.(phase := Aborted, observedGeneration := st.observedGeneration, message := st.message,
                postCheckCycles := st.postCheckCycles, endTime := st.endTime,
                cleanupError := st.cleanupError, completeCondition := true)
    && s.postCheckCycles <= st.postCheckCycles
    && f.Stamped(st.endTime)
    && (st.cleanupError || !f.active)
  }

  predicate BackfillsAbort(x: Experiment, st: Status, f: Facts) {
    var s := x.status;
    && s.phase.Aborted?
    && st == s.(message := st.message, endTime := st.endTime, injectionStartedAt := None,
                completeCondition := true)
    && (s.message != "" ==> st.message == s.message) && st.message != ""
    && (if s.endTime.Some? then st.endTime == s.endTime else f.Stamped(st.endTime))
  }

  predicate RecordsCleanupError(x: Experiment, st: Status) {
    x.deleting && st == x.status.(cleanupError := true)
  }

  /** Every status write of the controller is one of these. */
  datatype Write =
    | ToPreCheck | ToInjecting | InjectionStart | Generation | ToObserving | RevertTime
    | ToPostCheck | PostCheckStart | PostCheckCycle | Completion
    | AbortBarrier | AbortFinal | AbortBackfill | CleanupError

  predicate Transition(x: Experiment, kind: Write, st: Status, f: Facts) {
    && SameGeneration(x, st)
    && match kind
       case ToPreCheck => BeginsPreCheck(x, st, f)
       case ToInjecting => BeginsInjecting(x, st)
       case InjectionStart => RecordsInjectionStart(x, st, f)
       case Generation => RecordsGeneration(x, st)
       case ToObserving => BeginsObserving(x, st)
       case RevertTime => RecordsRevert(x, st, f)
       case ToPostCheck => BeginsPostCheck(x, st, f)
       case PostCheckStart => RecordsPostCheckStart(x, st, f)
       case PostCheckCycle => CountsPostCheckCycle(x, st)
       case Completion => Completes(x, st, f)
       case AbortBarrier => RecordsAbort(x, st)
       case AbortFinal => FinishesAbort(x, st, f)
       case AbortBackfill => BackfillsAbort(x, st, f)
       case CleanupError => RecordsCleanupError(x, st)
  }

  // --- effects ---

  datatype Effect =
    | Begin                                    // a reconcile begins
    | WriteStatus(kind: Write, st: Status)
    | AddFinalizer(bump: bool)
    | RemoveFinalizer(bump: bool)
    | InjectFault(took: bool)                  // took: the fault is in place, whatever was returned
    | RevertFault(ok: bool, cleared: bool)     // ok: nil returned; cleared: the fault is gone
    | CreateLease(op: Operator, seconds: int, at: int)
    | ReclaimLease(op: Operator, seconds: int, at: int)
    | RenewLease(op: Operator, at: int)
    | DeleteLease(op: Operator)

  /** The clock showed this time since the reconcile of e, if e has any, began. */
  predicate ReadSince(w: World, e: Name, at: int) {
    (e in w.began ==> w.began[e] <= at) && at <= w.now
  }

  /** A fault is reverted when that is due; earlier only in a deletion, on a terminal experiment, or in
      an abort for a reason that stays: a lost lease, an edited spec, or no start on record. */
  predicate MayRevert(w: World, e: Name)
    requires e in w.exps
  {
    var x := w.exps[e];
    var s := x.status;
    || x.deleting || Terminal(s.phase) || s.faultRevertedAt.Some?
    || (s.phase.Observing? && (DueForRevert(w, e) || HasReasonToAbort(w, e)))
  }

  predicate DueForRevert(w: World, e: Name)
    requires e in w.exps
  {
    var x := w.exps[e];
    x.status.injectionStartedAt.Some? && w.now >= x.status.injectionStartedAt.value + x.spec.Deadline()
  }

  predicate HasReasonToAbort(w: World, e: Name)
    requires e in w.exps
  {
    var x := w.exps[e];
    x.status.injectionStartedAt.None? || !w.HeldBy(x.spec.operator, e) || x.Mutated()
  }

  predicate Enabled(w: World, e: Name, eff: Effect) {
    match eff
    case Begin => true
    case WriteStatus(kind, st) =>
      w.Present(e) && e in w.began && Transition(w.exps[e], kind, st, FactsOf(w, e)) &&
      (w.exps[e].deleting ==> kind.CleanupError?)
    case AddFinalizer(_) =>
      w.Present(e) && !w.exps[e].deleting &&
      w.exps[e].status.phase.Injecting? && w.exps[e].status.injectionStartedAt.Some?
    case RemoveFinalizer(_) =>
      w.Present(e) && w.exps[e].finalizer &&
      if w.exps[e].deleting then e !in w.active
      else
        || w.exps[e].status.phase.Complete?
        || (w.exps[e].status.phase.Aborted? && (e in w.active ==> e in w.revertFailed))
    case InjectFault(_) =>
      w.Present(e) && e !in w.injected && w.exps[e].finalizer &&
      w.exps[e].status.phase.Injecting? && e in w.began && FactsOf(w, e).Stamped(w.exps[e].status.injectionStartedAt)
    case RevertFault(ok, cleared) => e in w.exps && MayRevert(w, e) && (ok ==> cleared)
    case CreateLease(op, seconds, at) =>
      MayAcquire(w, e) && op !in w.leases && seconds >= DEFAULT_LEASE_SECONDS && ReadSince(w, e, at)
    case ReclaimLease(op, seconds, at) =>
      MayAcquire(w, e) && op in w.leases && w.leases[op].Expired(w.now) &&
      seconds >= DEFAULT_LEASE_SECONDS && ReadSince(w, e, at)
    case RenewLease(op, at) =>
      && w.HeldBy(op, e) && ReadSince(w, e, at)
      && (w.leases[op].LastActive().Some? ==> w.leases[op].LastActive().value <= at)
    case DeleteLease(op) => w.HeldBy(op, e) && MayRelease(w, e)
  }

  function Bump(x: Experiment, bump: bool): nat {
    if bump then x.generation + 1 else x.generation
  }

  function Apply(w: World, e: Name, eff: Effect): World
    requires Enabled(w, e, eff)
  {
    match eff
    case Begin => w.(began := w.began[e := w.now])
    case WriteStatus(_, st) =>
      w.(rev := w.rev + 1, exps := w.exps[e := w.exps[e].(rv := w.rev + 1, status := st)])
    case AddFinalizer(bump) =>
      w.(rev := w.rev + 1,
         exps := w.exps[e := w.exps[e].(rv := w.rev + 1, finalizer := true, generation := Bump(w.exps[e], bump))])
    case RemoveFinalizer(bump) =>
      // The API server completes a pending deletion when the last finalizer goes.
      w.(rev := w.rev + 1,
         exps := w.exps[e := w.exps[e].(rv := w.rev + 1, finalizer := false, gone := w.exps[e].deleting,
                                        generation := Bump(w.exps[e], bump))])
    case InjectFault(took) =>
      w.(injected := w.injected + {e}, active := if took then w.active + {e} else w.active)
    case RevertFault(ok, cleared) =>
      w.(active := if cleared then w.active - {e} else w.active,
         revertFailed := if ok then w.revertFailed - {e} else w.revertFailed + {e},
         reverted := if ok then w.reverted[e := w.now] else w.reverted)
    case CreateLease(op, seconds, at) =>
      w.(rev := w.rev + 1, leases := w.leases[op := Lease(w.rev + 1, Some(e), Some(seconds), Some(at), None)])
    case ReclaimLease(op, seconds, at) =>
      w.(rev := w.rev + 1, leases := w.leases[op := Lease(w.rev + 1, Some(e), Some(seconds), Some(at), None)])
    case RenewLease(op, at) =>
      w.(rev := w.rev + 1, leases := w.leases[op := w.leases[op].(rv := w.rev + 1, renewTime := Some(at))])
    case DeleteLease(op) =>
      w.(rev := w.rev + 1, leases := w.leases - {op})
  }

  /** Whatever happens without a worker or a lock caller: time passes, users delete
      objects and edit specs.  A spec is not edited once its injection has started. */
  datatype Outside =
    | Tick(elapsed: nat)
    | UserDelete(target: Name)
    | UserEdit(target: Name, spec: Spec)

  predicate Allowed(w: World, o: Outside) {
    match o
    case Tick(_) => true
    case UserDelete(e) => w.Present(e)
    case UserEdit(e, spec) =>
      w.Present(e) &&
      (w.exps[e].status.injectionStartedAt.Some? || e in w.injected ==> spec == w.exps[e].spec)
  }

  function Happen(w: World, o: Outside): World
    requires Allowed(w, o)
  {
    match o
    case Tick(elapsed) => w.(now := w.now + elapsed)
    case UserDelete(e) =>
      w.(rev := w.rev + 1,
         exps := w.exps[e := w.exps[e].(rv := w.rev + 1, generation := w.exps[e].generation + 1,
                                        deleting := true, gone := !w.exps[e].finalizer)])
    case UserEdit(e, spec) =>
      w.(rev := w.rev + 1,
         exps := w.exps[e := w.exps[e].(rv := w.rev + 1, generation := w.exps[e].generation + 1, spec := spec)])
  }

  datatype Action = By(who: Name, eff: Effect) | Elsewhere(what: Outside)

  predicate CanStep(w: World, a: Action) {
    match a
    case By(e, eff) => Enabled(w, e, eff)
    case Elsewhere(o) => Allowed(w, o)
  }

  function Step(w: World, a: Action): World
    requires CanStep(w, a)
  {
    match a
    case By(e, eff) => Apply(w, e, eff)
    case Elsewhere(o) => Happen(w, o)
  }

  // --- the invariant ---

  /** An active fault is always covered: either by a running experiment that still has
      its finalizer and has not recorded a revert, or by an aborted one that still has
      its finalizer or whose last revert failed. */
  predicate FaultCovered(w: World, e: Name)
    requires e in w.exps
  {
    var x := w.exps[e];
    var s := x.status;
    e in w.active ==>
      if Terminal(s.phase) then s.phase.Aborted? && (x.finalizer || e in w.revertFailed)
      else
        && !x.gone && x.finalizer && (s.phase.Injecting? || s.phase.Observing?)
        && s.injectionStartedAt.Some? && s.faultRevertedAt.None?
  }

  predicate Stamped(w: World, x: Experiment) {
    var s := x.status;
    && s.observedGeneration <= x.generation
    && (s.injectionStartedAt.Some? ==> s.injectionStartedAt.value <= w.now && (PastPreCheck(s.phase) || Terminal(s.phase)))
    && (s.faultRevertedAt.Some? ==> Terminal(s.phase) || (PastPreCheck(s.phase) && !s.phase.Injecting?))
    && (s.postCheckStartedAt.Some? ==> Terminal(s.phase) || s.phase.SteadyStatePost? || s.phase.Evaluating?)
    && (s.faultRevertedAt.Some? && !s.phase.Aborted? ==>
          s.injectionStartedAt.Some? &&
          s.injectionStartedAt.value + x.spec.Deadline() <= s.faultRevertedAt.value <= w.now)
    && (s.postCheckStartedAt.Some? && !s.phase.Aborted? ==>
          s.faultRevertedAt.Some? &&
          s.faultRevertedAt.value + x.spec.Recovery() <= s.postCheckStartedAt.value <= w.now)
    && (s.phase.SteadyStatePost? || s.phase.Evaluating? || s.phase.Complete? ==>
          s.faultRevertedAt.Some? && s.faultRevertedAt.value + x.spec.Recovery() <= w.now)
    && (s.phase.Evaluating? || s.phase.Complete? ==> s.postCheckStartedAt.Some?)
    && (s.phase.Complete? ==> s.endTime.Some? && s.postCheckStartedAt.value <= s.endTime.value <= w.now)
  }

  predicate InjectedOnce(w: World, e: Name)
    requires e in w.exps
  {
    e in w.injected && !Terminal(w.exps[e].status.phase) ==> w.exps[e].status.injectionStartedAt.Some?
  }

  predicate ExperimentInv(w: World, e: Name)
    requires e in w.exps
  {
    && w.exps[e].rv <= w.rev
    && (w.exps[e].gone ==> !w.exps[e].finalizer)
    && FaultCovered(w, e)
    && InjectedOnce(w, e)
    && Stamped(w, w.exps[e])
    && (w.exps[e].Live() ==> w.HeldBy(w.exps[e].spec.operator, e))
  }

  predicate LeaseInv(w: World, op: Operator)
    requires op in w.leases
  {
    var l := w.leases[op];
    && l.rv <= w.rev
    && l.holder.Some?
    && l.durationSeconds.Some? && l.durationSeconds.value >= DEFAULT_LEASE_SECONDS
    && l.acquireTime.Some? && l.acquireTime.value <= w.now
    && (l.renewTime.Some? ==> l.renewTime.value <= w.now)
  }

  predicate Inv(w: World) {
    && w.active <= w.injected <= w.exps.Keys
    && (forall e | e in w.began :: w.began[e] <= w.now)
    && (forall e {:trigger ExperimentInv(w, e)} | e in w.exps :: ExperimentInv(w, e))
    && (forall op {:trigger LeaseInv(w, op)} | op in w.leases :: LeaseInv(w, op))
  }

  /** The timing assumption: an experiment that is past its pre-check, not being deleted
      and still the holder of its lease was active on it within the last 900 seconds. */
  predicate RenewedInTime(w: World, e: Name)
    requires e in w.exps
  {
    var op := w.exps[e].spec.operator;
    w.exps[e].Guarded() && w.HeldBy(op, e) && w.leases[op].LastActive().Some? ==>
      w.now <= w.leases[op].LastActive().value + DEFAULT_LEASE_SECONDS * SECOND
  }

  predicate Timely(w: World) {
    forall e {:trigger RenewedInTime(w, e)} | e in w.exps :: RenewedInTime(w, e)
  }

  // --- what everyone else leaves alone ---

  predicate SameOwnStatus(w: World, w': World, e: Name)
    requires e in w.exps && e in w'.exps
  {
    var x, x' := w.exps[e], w'.exps[e];
    && x'.status == x.status && x'.finalizer == x.finalizer && x.generation <= x'.generation
    && (x.deleting ==> x'.deleting)
    && (x.gone ==> x'.gone)
    && (x'.gone && !x.gone ==> !x.finalizer)
    && (x.status.injectionStartedAt.Some? || e in w.injected ==> x'.spec == x.spec)
    && (x' == x || x'.rv > w.rev)
  }

  /** No reconcile of e began, and no revert of its fault succeeded. */
  predicate SameHistory(e: Name, w: World, w': World) {
    && (e in w.began <==> e in w'.began) && (e in w.began ==> w'.began[e] == w.began[e])
    && (e in w.reverted <==> e in w'.reverted) && (e in w.reverted ==> w'.reverted[e] == w.reverted[e])
  }

  /** The lease is as it was, or another one, that of someone else. */
  predicate KeptOrForeign(e: Name, w: World, w': World, op: Operator)
    requires op in w'.leases
  {
    (op in w.leases && w'.leases[op] == w.leases[op]) || (w'.leases[op].rv > w.rev && w'.leases[op].holder != Some(e))
  }

  /** What the worker of experiment e can rely on while it is between two API calls. */
  predicate Rely(e: Name, w: World, w': World) {
    && w.now <= w'.now && w.rev <= w'.rev
    && w'.exps.Keys == w.exps.Keys
    && (e in w.active <==> e in w'.active)
    && (e in w.injected <==> e in w'.injected)
    && (e in w.revertFailed <==> e in w'.revertFailed)
    && SameHistory(e, w, w')
    && (e in w.exps ==> SameOwnStatus(w, w', e))
    && (forall op | op in w'.leases :: KeptOrForeign(e, w, w', op))
    && (e in w.exps && w'.exps[e] == w.exps[e] && w.exps[e].Guarded() && w.HeldBy(w.exps[e].spec.operator, e)
        ==> w'.HeldBy(w.exps[e].spec.operator, e))
  }
}
