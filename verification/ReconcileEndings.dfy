/** How experiments end: when a reconcile aborts one, and that it gives the lock back. */
module ReconcileEndings {
  import opened Wrappers
  import opened ExperimentWorld
  import opened LocalLock
  import opened ApiClient
  import opened Reconciler

  // --- aborts ---

  predicate WritesAbort(c: Call) {
    c.StatusUpdate? && c.st.phase.Aborted?
  }

  ghost predicate Aborts(trail: seq<Call>) {
    exists i :: 0 <= i < |trail| && WritesAbort(trail[i])
  }

  lemma AbortsIffBehind(trail: seq<Call>, k: nat)
    requires k <= |trail| && forall i | 0 <= i < k :: !WritesAbort(trail[i])
    ensures Aborts(trail) <==> Aborts(trail[k..])
  {
    assert trail == trail[..k] + trail[k..];
  }

  lemma AbortTrailAborts(op: Operator, p: Phase, trail: seq<Call>, r: Outcome)
    requires AbortTrail(op, p, trail, r)
    ensures Aborts(trail)
  {
    if p.Injecting? {
      assert WritesAbort(trail[0]);
    } else if p.Observing? || p.SteadyStatePost? {
      assert trail[1] == trail[1..][0] && WritesAbort(trail[1]);
    } else {
      assert WritesAbort(trail[0]);
    }
  }

  predicate Lost(result: LockResult) {
    result.HolderMismatch? || result.LockNotFound?
  }

  /** Why the handler of the phase aborts, the lease having been renewed by the first call. */
  ghost predicate HandlerGivesUp(x: Experiment, checks: Checks, at: int, trail: seq<Call>) {
    var s := x.status;
    match s.phase
    case SteadyStatePre => checks.preCheck != Some(true)
    case Injecting => Inject(false) in trail
    case Observing =>
      || s.injectionStartedAt.None?
      || (s.faultRevertedAt.None? && at >= s.injectionStartedAt.value + x.spec.Deadline()
          && |trail| > 1 && trail[1].Renew? && !trail[1].result.Granted?)
    case SteadyStatePost =>
      && s.postCheckStartedAt.Some?
      && (checks.poll.PollFailed?
          || (checks.finalCheck.None? && (checks.poll != Polled(false) || at >= s.postCheckStartedAt.value + x.spec.Recovery())))
    case Evaluating => checks.poll.PollFailed? || checks.finalCheck.None?
    case _ => true
  }

  ghost predicate HasToAbort(x: Experiment, checks: Checks, at: int, trail: seq<Call>) {
    if x.status.observedGeneration != 0 && x.generation != x.status.observedGeneration then true
    else if x.status.phase.Pending? || x.status.phase.Unset? then !checks.valid
    else
      && |trail| > 0 && trail[0].Renew?
      && (Lost(trail[0].result) || (trail[0].result.Granted? && HandlerGivesUp(x, checks, at, trail)))
  }

  lemma HandlerAbortsIff(x: Experiment, checks: Checks, at: int, trail: seq<Call>, r: Outcome)
    requires |trail| > 0 && trail[0].Renew? && !x.status.phase.Pending? && !x.status.phase.Unset?
    requires DispatchTrail(x, checks, at, trail[1..], r)
    ensures Aborts(trail[1..]) <==> HandlerGivesUp(x, checks, at, trail)
  {
  }

  lemma RenewedAbortsIff(x: Experiment, checks: Checks, at: int, trail: seq<Call>, r: Outcome)
    requires RenewedTrail(x, checks, at, trail, r) && !x.status.phase.Pending? && !x.status.phase.Unset?
    ensures Aborts(trail) <==>
      Lost(trail[0].result) || (trail[0].result.Granted? && HandlerGivesUp(x, checks, at, trail))
  {
    if Lost(trail[0].result) {
      AbortTrailAborts(x.spec.operator, x.status.phase, trail[1..], r);
    } else if trail[0].result.Granted? {
      HandlerAbortsIff(x, checks, at, trail, r);
    }
    AbortsIffBehind(trail, 1);
  }

  /** A reconcile of an experiment that has not ended writes the Aborted phase if and only if the spec was
      edited, its parameters are invalid, the lease is lost, or the handler of its phase has a reason. */
  lemma AbortsIff(x: Experiment, checks: Checks, at: int, trail: seq<Call>, r: Outcome)
    requires ReconcileTrail(Some(x), checks, at, trail, r) && !x.deleting && !Terminal(x.status.phase)
    ensures Aborts(trail) <==> HasToAbort(x, checks, at, trail)
  {
    assert RunningTrail(x, checks, at, trail, r);
    if x.status.observedGeneration != 0 && x.generation != x.status.observedGeneration {
      AbortTrailAborts(x.spec.operator, x.status.phase, trail, r);
    } else if !x.status.phase.Pending? && !x.status.phase.Unset? {
      RenewedAbortsIff(x, checks, at, trail, r);
    }
  }

  // --- errors ---

  /** The last call failed, and not in a way that the reconcile has an answer to. */
  predicate EndsInError(trail: seq<Call>) {
    && trail != [] && var c := trail[|trail| - 1];
       || (c.StatusUpdate? && !c.ok) || (c.FinalizerUpdate? && !c.ok)
       || (c.Acquire? && !c.result.Granted? && !c.result.Contention?)
  }

  predicate RepeatsOrFails(trail: seq<Call>, r: Outcome) {
    !r.Done? && (r.Failed? <==> EndsInError(trail))
  }

  lemma RepeatsBehind(trail: seq<Call>, k: nat, r: Outcome)
    requires k <= |trail| && RepeatsOrFails(trail[k..], r) && (k < |trail| || !EndsInError(trail))
    ensures RepeatsOrFails(trail, r)
  {
    if k < |trail| { assert trail[k..][|trail[k..]| - 1] == trail[|trail| - 1]; }
  }

  lemma AbortRepeats(op: Operator, p: Phase, trail: seq<Call>, r: Outcome)
    requires AbortTrail(op, p, trail, r)
    ensures RepeatsOrFails(trail, r)
  {
    if !(p.Injecting? && !trail[0].ok) {
      RepeatsBehind(trail, if p.Injecting? then 2 else if p.Observing? || p.SteadyStatePost? then 1 else 0, r);
    }
  }

  lemma FaultRepeats(op: Operator, trail: seq<Call>, r: Outcome)
    requires FaultTrail(op, trail, r)
    ensures RepeatsOrFails(trail, r)
  {
    if !trail[0].ok { AbortRepeats(op, Injecting, trail[1..], r); }
    RepeatsBehind(trail, 1, r);
  }

  lemma InjectRepeats(x: Experiment, trail: seq<Call>, r: Outcome)
    requires InjectTrail(x, trail, r)
    ensures RepeatsOrFails(trail, r)
  {
    if trail[0].ok && x.status.injectionStartedAt.None? {
      var rest := trail[1..];
      if x.finalizer {
        FaultRepeats(x.spec.operator, rest, r);
      } else if rest[0].ok && rest[1].ok {
        FaultRepeats(x.spec.operator, rest[2..], r);
        RepeatsBehind(rest, 2, r);
      }
      RepeatsBehind(trail, 1, r);
    } else if trail[0].ok && !x.finalizer {
      RepeatsBehind(trail, 1, r);
    }
  }

  lemma HandlerRepeats(x: Experiment, checks: Checks, at: int, trail: seq<Call>, r: Outcome)
    requires DispatchTrail(x, checks, at, trail, r) && !x.status.phase.Pending? && !x.status.phase.Unset?
    ensures RepeatsOrFails(trail, r)
  {
    if x.status.phase.Injecting? { InjectRepeats(x, trail, r); }
  }

  /** A reconcile of an experiment that has not ended is always repeated, and reports an error if and only if
      its last call failed: contention, a renewal that could not be made, a failed injection and a failed
      revert are not errors. */
  lemma AlwaysRepeats(x: Experiment, checks: Checks, at: int, trail: seq<Call>, r: Outcome)
    requires ReconcileTrail(Some(x), checks, at, trail, r) && !x.deleting && !Terminal(x.status.phase)
    ensures RepeatsOrFails(trail, r)
  {
    assert RunningTrail(x, checks, at, trail, r);
    if x.status.observedGeneration != 0 && x.generation != x.status.observedGeneration {
      AbortRepeats(x.spec.operator, x.status.phase, trail, r);
    } else if !x.status.phase.Pending? && !x.status.phase.Unset? {
      RenewedRepeats(x, checks, at, trail, r);
    }
  }

  lemma RenewedRepeats(x: Experiment, checks: Checks, at: int, trail: seq<Call>, r: Outcome)
    requires RenewedTrail(x, checks, at, trail, r) && !x.status.phase.Pending? && !x.status.phase.Unset?
    ensures RepeatsOrFails(trail, r)
  {
    if Lost(trail[0].result) {
      AbortRepeats(x.spec.operator, x.status.phase, trail[1..], r);
    } else if trail[0].result.Granted? {
      HandlerRepeats(x, checks, at, trail[1..], r);
    }
    RepeatsBehind(trail, 1, r);
  }

  // --- the lock ---

  predicate GivesBack(c: Call, op: Operator) {
    c.Release? && c.op == op
  }

  /** Whatever ends the experiment is followed by giving back the lock: the last status write, if it stored
      a terminal phase. */
  ghost predicate EndsWithRelease(op: Operator, trail: seq<Call>) {
    forall j | 0 <= j < |trail| && StoresEnd(trail[j]) && NoWriteAfter(trail, j) :: ReleasesLast(trail, j, op)
  }

  predicate NoWriteAfter(trail: seq<Call>, j: nat) {
    forall i | j < i < |trail| :: !trail[i].StatusUpdate?
  }

  predicate ReleasesLast(trail: seq<Call>, j: nat, op: Operator) {
    j + 2 == |trail| && GivesBack(trail[j + 1], op)
  }

  predicate StoresEnd(c: Call) {
    c.StatusUpdate? && c.ok && Terminal(c.st.phase)
  }

  lemma EndsBehind(op: Operator, trail: seq<Call>, k: nat)
    requires k <= |trail| && EndsWithRelease(op, trail[k..])
    requires forall i | 0 <= i < k && StoresEnd(trail[i]) :: exists j :: k <= j < |trail| && trail[j].StatusUpdate?
    ensures EndsWithRelease(op, trail)
  {
    var rest := trail[k..];
    assert trail == trail[..k] + rest;
    forall j | 0 <= j < |trail| && StoresEnd(trail[j]) && NoWriteAfter(trail, j) ensures ReleasesLast(trail, j, op) {
      assert j >= k && rest[j - k] == trail[j];
      assert forall i | j - k < i < |rest| :: rest[i] == trail[i + k];
    }
  }

  lemma AbortGivesBack(op: Operator, p: Phase, trail: seq<Call>, r: Outcome)
    requires AbortTrail(op, p, trail, r)
    ensures EndsWithRelease(op, trail)
  {
    if p.Injecting? && !trail[0].ok {
    } else {
      var k := if p.Injecting? then 2 else if p.Observing? || p.SteadyStatePost? then 1 else 0;
      assert trail[k] == trail[k..][0] && trail[k].StatusUpdate?;
      EndsBehind(op, trail, k);
    }
  }

  lemma FaultGivesBack(op: Operator, trail: seq<Call>, r: Outcome)
    requires FaultTrail(op, trail, r)
    ensures EndsWithRelease(op, trail)
  {
    if !trail[0].ok { AbortGivesBack(op, Injecting, trail[1..], r); }
    EndsBehind(op, trail, 1);
  }

  lemma InjectGivesBack(x: Experiment, trail: seq<Call>, r: Outcome)
    requires InjectTrail(x, trail, r)
    ensures EndsWithRelease(x.spec.operator, trail)
  {
    var op := x.spec.operator;
    if x.status.injectionStartedAt.None? && trail[0].ok {
      var rest := trail[1..];
      if x.finalizer {
        FaultGivesBack(op, rest, r);
      } else if rest[0].ok && rest[1].ok {
        FaultGivesBack(op, rest[2..], r);
        EndsBehind(op, rest, 2);
      }
      EndsBehind(op, trail, 1);
    } else if x.status.injectionStartedAt.Some? && !x.finalizer && trail[0].ok {
      EndsBehind(op, trail, 1);
    }
  }

  lemma ObserveGivesBack(x: Experiment, at: int, trail: seq<Call>, r: Outcome)
    requires ObserveTrail(x, at, trail, r)
    ensures EndsWithRelease(x.spec.operator, trail)
  {
    var op := x.spec.operator;
    if x.status.injectionStartedAt.None? {
      AbortGivesBack(op, Observing, trail, r);
    } else if x.status.faultRevertedAt.None? && trail != [] {
      if !trail[0].result.Granted? { AbortGivesBack(op, Observing, trail[1..], r); }
      EndsBehind(op, trail, 1);
    }
  }

  lemma HandlerGivesBack(x: Experiment, checks: Checks, at: int, trail: seq<Call>, r: Outcome)
    requires DispatchTrail(x, checks, at, trail, r) && !x.status.phase.Pending? && !x.status.phase.Unset?
    ensures EndsWithRelease(x.spec.operator, trail)
  {
    var op := x.spec.operator;
    match x.status.phase
    case SteadyStatePre => if checks.preCheck != Some(true) { AbortGivesBack(op, SteadyStatePre, trail, r); }
    case Injecting => InjectGivesBack(x, trail, r);
    case Observing => ObserveGivesBack(x, at, trail, r);
    case SteadyStatePost => PostCheckGivesBack(x, checks, at, trail, r);
    case Evaluating =>
      if checks.poll.PollFailed? || checks.finalCheck.None? { AbortGivesBack(op, Evaluating, trail, r); }
    case _ => AbortGivesBack(op, x.status.phase, trail, r);
  }

  lemma PostCheckGivesBack(x: Experiment, checks: Checks, at: int, trail: seq<Call>, r: Outcome)
    requires PostCheckTrail(x, checks, at, trail, r)
    ensures EndsWithRelease(x.spec.operator, trail)
  {
    var s := x.status;
    if s.postCheckStartedAt.Some?
       && (checks.poll.PollFailed?
           || (checks.finalCheck.None? && (checks.poll != Polled(false) || at >= s.postCheckStartedAt.value + x.spec.Recovery()))) {
      AbortGivesBack(x.spec.operator, SteadyStatePost, trail, r);
    }
  }

  lemma RenewedGivesBack(x: Experiment, checks: Checks, at: int, trail: seq<Call>, r: Outcome)
    requires RenewedTrail(x, checks, at, trail, r) && !x.status.phase.Pending? && !x.status.phase.Unset?
    ensures EndsWithRelease(x.spec.operator, trail)
  {
    if Lost(trail[0].result) {
      AbortGivesBack(x.spec.operator, x.status.phase, trail[1..], r);
    } else if trail[0].result.Granted? {
      HandlerGivesBack(x, checks, at, trail[1..], r);
    }
    EndsBehind(x.spec.operator, trail, 1);
  }

  lemma PendingGivesBack(x: Experiment, checks: Checks, trail: seq<Call>, r: Outcome)
    requires PendingTrail(x, checks, trail, r)
    ensures EndsWithRelease(x.spec.operator, trail)
  {
    if !checks.valid {
      AbortGivesBack(x.spec.operator, Pending, trail, r);
    } else {
      EndsBehind(x.spec.operator, trail, 1);
    }
  }

  /** A reconcile that ends an experiment gives its lock back as the last thing it does. */
  lemma EndGivesLockBack(x: Experiment, checks: Checks, at: int, trail: seq<Call>, r: Outcome)
    requires ReconcileTrail(Some(x), checks, at, trail, r) && !x.deleting && !Terminal(x.status.phase)
    ensures EndsWithRelease(x.spec.operator, trail)
  {
    assert RunningTrail(x, checks, at, trail, r);
    if x.status.observedGeneration != 0 && x.generation != x.status.observedGeneration {
      AbortGivesBack(x.spec.operator, x.status.phase, trail, r);
    } else if x.status.phase.Pending? || x.status.phase.Unset? {
      PendingGivesBack(x, checks, trail, r);
    } else {
      RenewedGivesBack(x, checks, at, trail, r);
    }
  }

  /** A reconcile that takes the finalizer off gives the lock back, too: before it, if the experiment is
      being deleted, and else after it. */
  lemma DetachGivesLockBack(x: Experiment, checks: Checks, at: int, trail: seq<Call>, r: Outcome, j: nat)
    requires ReconcileTrail(Some(x), checks, at, trail, r) && (x.deleting || Terminal(x.status.phase))
    requires j < |trail| && trail[j].FinalizerUpdate? && !trail[j].present
    ensures if x.deleting then j > 0 && GivesBack(trail[j - 1], x.spec.operator)
            else trail[j].ok ==> j + 1 < |trail| && GivesBack(trail[j + 1], x.spec.operator)
  {
    if !x.deleting && x.finalizer {
      var k := if x.status.phase.Aborted? then 1 else 0;
      if j > k + 1 { assert trail[j] == trail[k + 2..][j - k - 2]; }
    }
  }
}
