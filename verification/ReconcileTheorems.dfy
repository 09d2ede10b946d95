/** What the calls of one reconcile have in common, whatever the phase: when the fault is injected,
    when the lock is released, when the finalizer goes, and what follows a failed status write. */
module ReconcileTheorems {
  import opened Wrappers
  import opened ExperimentWorld
  import opened ApiClient
  import opened LeaseLock
  import opened Reconciler

  ghost predicate NoInject(trail: seq<Call>) {
    forall c | c in trail :: !c.Inject?
  }

  /** A release directly follows a stored terminal status. */
  ghost predicate ReleasesAtEnd(trail: seq<Call>) {
    forall j | 0 <= j < |trail| && trail[j].Release? :: AfterTerminalWrite(trail, j)
  }

  predicate AfterTerminalWrite(trail: seq<Call>, j: nat)
    requires j < |trail|
  {
    j > 0 && trail[j - 1].StatusUpdate? && trail[j - 1].ok && Terminal(trail[j - 1].st.phase)
  }

  /** Nothing follows a failed status write, and the reconcile is repeated. */
  ghost predicate StopsAtFailure(trail: seq<Call>, r: Outcome) {
    forall j | 0 <= j < |trail| && trail[j].StatusUpdate? && !trail[j].ok :: j == |trail| - 1 && r.Failed?
  }

  /** The finalizer is not taken off. */
  ghost predicate KeepsFinalizer(trail: seq<Call>) {
    forall c | c in trail && c.FinalizerUpdate? :: c.present
  }

  /** What holds of most handlers. */
  ghost predicate Orderly(trail: seq<Call>, r: Outcome) {
    ReleasesAtEnd(trail) && StopsAtFailure(trail, r) && KeepsFinalizer(trail)
  }

  /** Some calls in front that release nothing and, if they write, succeed. */
  lemma OrderlyBehind(trail: seq<Call>, k: nat, r: Outcome)
    requires k <= |trail| && Orderly(trail[k..], r)
    requires forall i | 0 <= i < k ::
      !trail[i].Release? && (trail[i].StatusUpdate? ==> trail[i].ok) && (trail[i].FinalizerUpdate? ==> trail[i].present)
    ensures Orderly(trail, r)
  {
    var rest := trail[k..];
    assert trail == trail[..k] + rest;
    forall j | 0 <= j < |trail| && trail[j].Release? ensures AfterTerminalWrite(trail, j) {
      assert rest[j - k] == trail[j];
      assert AfterTerminalWrite(rest, j - k);
    }
    forall j | 0 <= j < |trail| && trail[j].StatusUpdate? && !trail[j].ok ensures j == |trail| - 1 && r.Failed? {
      assert rest[j - k] == trail[j];
    }
    forall c | c in trail && c.FinalizerUpdate? ensures c.present {
      if c !in rest { assert c in trail[..k]; }
    }
  }

  lemma QuietBehind(trail: seq<Call>, k: nat)
    requires k <= |trail| && NoInject(trail[k..]) && forall i | 0 <= i < k :: !trail[i].Inject?
    ensures NoInject(trail)
  {
    assert trail == trail[..k] + trail[k..];
  }

  lemma AbortIsOrderly(op: Operator, p: Phase, trail: seq<Call>, r: Outcome)
    requires AbortTrail(op, p, trail, r)
    ensures Orderly(trail, r) && NoInject(trail)
  {
    var k := if p.Injecting? then 2 else if p.Observing? || p.SteadyStatePost? then 1 else 0;
    if p.Injecting? && !trail[0].ok {
    } else {
      var rest := trail[k..];
      assert ReleasesAtEnd(rest) && StopsAtFailure(rest, r);
      assert forall i | 0 <= i < |rest| :: rest[i].StatusUpdate? || rest[i].Release?;
      OrderlyBehind(trail, k, r);
      QuietBehind(trail, k);
    }
  }

  // --- injection ---

  /** An injection start has been stored, the finalizer is on, and everything before succeeded. */
  ghost predicate BehindBarrier(x: Experiment, trail: seq<Call>, j: nat)
    requires j <= |trail|
  {
    && (exists i :: 0 <= i < j && StoresStart(trail, i))
    && (x.finalizer || exists i :: 0 <= i < j && trail[i] == FinalizerUpdate(true, true))
    && (forall i | 0 <= i < j :: Succeeded(trail[i]))
  }

  predicate StoresStart(trail: seq<Call>, i: nat)
    requires i < |trail|
  {
    trail[i].StatusUpdate? && trail[i].ok && trail[i].st.phase.Injecting? && trail[i].st.injectionStartedAt.Some?
  }

  predicate Succeeded(c: Call) {
    match c
    case StatusUpdate(_, ok) => ok
    case FinalizerUpdate(_, ok) => ok
    case Inject(ok) => ok
    case Revert(ok) => ok
    case Acquire(_, _, result) => result.Granted?
    case Renew(_, result) => result.Granted?
    case Release(_, result) => result.Granted?
    case Read(_, found) => found.Some?
  }

  /** A trail that injects does so at place j only. */
  ghost predicate InjectsOnlyAt(trail: seq<Call>, j: nat) {
    forall i | 0 <= i < |trail| && trail[i].Inject? :: i == j
  }

  lemma FaultIsOrderly(op: Operator, trail: seq<Call>, r: Outcome)
    requires FaultTrail(op, trail, r)
    ensures Orderly(trail, r) && NoInject(trail[1..])
  {
    if !trail[0].ok { AbortIsOrderly(op, Injecting, trail[1..], r); }
    OrderlyBehind(trail, 1, r);
  }

  lemma InjectsOnceFrom(trail: seq<Call>, j: nat)
    requires j < |trail| && NoInject(trail[j + 1..]) && forall i | 0 <= i < j :: !trail[i].Inject?
    ensures InjectsOnlyAt(trail, j)
  {
    forall i | j < i < |trail| ensures !trail[i].Inject? {
      assert trail[j + 1..][i - j - 1] == trail[i];
    }
  }

  /** The injection handler, after the renewal in front of it. */
  lemma InjectIsBehindBarrier(x: Experiment, trail: seq<Call>, r: Outcome)
    requires InjectTrail(x, trail, r)
    ensures Orderly(trail, r)
    ensures forall j: nat | j < |trail| && trail[j].Inject? ::
      x.status.injectionStartedAt.None? && BehindBarrier(x, trail, j) && InjectsOnlyAt(trail, j)
  {
    if x.status.injectionStartedAt.None? && trail[0].ok {
      var rest := trail[1..];
      assert StoresStart(trail, 0);
      if x.finalizer {
        FaultIsOrderly(x.spec.operator, rest, r);
        OrderlyBehind(trail, 1, r);
        assert trail[2..] == rest[1..];
        InjectsOnceFrom(trail, 1);
      } else if rest[0].ok && rest[1].ok {
        FaultIsOrderly(x.spec.operator, rest[2..], r);
        assert trail[3..] == rest[2..] && trail[4..] == rest[2..][1..];
        assert trail[1] == rest[0] && trail[2] == rest[1] && trail[3] == rest[2..][0];
        OrderlyBehind(trail, 3, r);
        InjectsOnceFrom(trail, 3);
      }
    }
  }

  // --- the other phases ---

  lemma DispatchIsOrderly(x: Experiment, checks: Checks, at: int, trail: seq<Call>, r: Outcome)
    requires DispatchTrail(x, checks, at, trail, r) && !x.status.phase.Injecting?
    ensures Orderly(trail, r) && NoInject(trail)
  {
    match x.status.phase
    case Unset => PendingIsOrderly(x, checks, trail, r);
    case Pending => PendingIsOrderly(x, checks, trail, r);
    case SteadyStatePre => if checks.preCheck != Some(true) { AbortIsOrderly(x.spec.operator, SteadyStatePre, trail, r); }
    case Observing => ObserveIsOrderly(x, at, trail, r);
    case SteadyStatePost => PostCheckIsOrderly(x, checks, at, trail, r);
    case Evaluating =>
      if checks.poll.PollFailed? || checks.finalCheck.None? { AbortIsOrderly(x.spec.operator, Evaluating, trail, r); }
    case Injecting =>
    case Complete => AbortIsOrderly(x.spec.operator, Complete, trail, r);
    case Aborted => AbortIsOrderly(x.spec.operator, Aborted, trail, r);
    case Unrecognized => AbortIsOrderly(x.spec.operator, Unrecognized, trail, r);
  }

  lemma PendingIsOrderly(x: Experiment, checks: Checks, trail: seq<Call>, r: Outcome)
    requires PendingTrail(x, checks, trail, r)
    ensures Orderly(trail, r) && NoInject(trail)
  {
    if !checks.valid {
      AbortIsOrderly(x.spec.operator, Pending, trail, r);
    } else if trail[0].result.Granted? {
      OrderlyBehind(trail, 1, r);
      QuietBehind(trail, 1);
    }
  }

  lemma ObserveIsOrderly(x: Experiment, at: int, trail: seq<Call>, r: Outcome)
    requires ObserveTrail(x, at, trail, r)
    ensures Orderly(trail, r) && NoInject(trail)
  {
    if x.status.injectionStartedAt.None? {
      AbortIsOrderly(x.spec.operator, Observing, trail, r);
    } else if x.status.faultRevertedAt.None? && trail != [] {
      var rest := trail[1..];
      if trail[0].result.Granted? {
        assert Orderly(rest, r) && NoInject(rest);
      } else {
        AbortIsOrderly(x.spec.operator, Observing, rest, r);
      }
      OrderlyBehind(trail, 1, r);
      QuietBehind(trail, 1);
    }
  }

  lemma PostCheckIsOrderly(x: Experiment, checks: Checks, at: int, trail: seq<Call>, r: Outcome)
    requires PostCheckTrail(x, checks, at, trail, r)
    ensures Orderly(trail, r) && NoInject(trail)
  {
    if x.status.postCheckStartedAt.Some? {
      if checks.poll.PollFailed? {
        AbortIsOrderly(x.spec.operator, SteadyStatePost, trail, r);
      } else if !(checks.poll == Polled(false) && at < x.status.postCheckStartedAt.value + x.spec.Recovery())
                && checks.finalCheck.None? {
        AbortIsOrderly(x.spec.operator, SteadyStatePost, trail, r);
      }
    }
  }

  /** A running experiment. */
  lemma RunningIsOrderly(x: Experiment, checks: Checks, at: int, trail: seq<Call>, r: Outcome)
    requires RenewedTrail(x, checks, at, trail, r)
    ensures Orderly(trail, r)
    ensures forall j: nat | j < |trail| && trail[j].Inject? ::
      x.status.phase.Injecting? && x.status.injectionStartedAt.None? && BehindBarrier(x, trail, j) && InjectsOnlyAt(trail, j)
  {
    var rest := trail[1..];
    if trail[0].result.HolderMismatch? || trail[0].result.LockNotFound? {
      AbortIsOrderly(x.spec.operator, x.status.phase, rest, r);
      OrderlyBehind(trail, 1, r);
      QuietBehind(trail, 1);
    } else if trail[0].result.Granted? && !x.status.phase.Injecting? {
      DispatchIsOrderly(x, checks, at, rest, r);
      OrderlyBehind(trail, 1, r);
      QuietBehind(trail, 1);
    } else if trail[0].result.Granted? {
      InjectIsBehindBarrier(x, rest, r);
      OrderlyBehind(trail, 1, r);
      forall j: nat | j < |trail| && trail[j].Inject?
        ensures x.status.injectionStartedAt.None? && BehindBarrier(x, trail, j) && InjectsOnlyAt(trail, j)
      {
        assert rest[j - 1] == trail[j];
        BarrierInFront(x, trail, j);
      }
    }
  }

  lemma BarrierInFront(x: Experiment, trail: seq<Call>, j: nat)
    requires 0 < j < |trail| && Succeeded(trail[0]) && !trail[0].Inject?
    requires BehindBarrier(x, trail[1..], j - 1) && InjectsOnlyAt(trail[1..], j - 1)
    ensures BehindBarrier(x, trail, j) && InjectsOnlyAt(trail, j)
  {
    var rest := trail[1..];
    var i :| 0 <= i < j - 1 && StoresStart(rest, i);
    assert StoresStart(trail, i + 1);
    if !x.finalizer {
      var k :| 0 <= k < j - 1 && rest[k] == FinalizerUpdate(true, true);
      assert trail[k + 1] == FinalizerUpdate(true, true);
    }
    forall k | 0 <= k < j ensures Succeeded(trail[k]) {
      if k > 0 { assert rest[k - 1] == trail[k]; }
    }
    forall k | 0 <= k < |trail| && trail[k].Inject? ensures k == j {
      assert rest[k - 1] == trail[k];
    }
  }

  // --- any reconcile ---

  /** In whatever phase: the fault is injected only by an experiment that is Injecting, has no injection
      start yet and is not being deleted; after its start was stored and with its finalizer on; behind
      nothing but calls that succeeded; and once at most. */
  lemma InjectOnlyBehindBarrier(seen: Option<Experiment>, checks: Checks, at: int, trail: seq<Call>, r: Outcome, j: nat)
    requires ReconcileTrail(seen, checks, at, trail, r) && j < |trail| && trail[j].Inject?
    ensures seen.Some?
    ensures var x := seen.value;
      && !x.deleting && x.status.phase.Injecting? && x.status.injectionStartedAt.None?
      && BehindBarrier(x, trail, j) && InjectsOnlyAt(trail, j)
  {
    var x := seen.value;
    if x.deleting {
      assert false;
    } else if Terminal(x.status.phase) {
      TerminalCalls(x, trail, r);
      assert false;
    } else if x.status.observedGeneration != 0 && x.generation != x.status.observedGeneration {
      AbortIsOrderly(x.spec.operator, x.status.phase, trail, r);
      assert false;
    } else if x.status.phase.Pending? || x.status.phase.Unset? {
      PendingIsOrderly(x, checks, trail, r);
      assert false;
    } else {
      RunningIsOrderly(x, checks, at, trail, r);
    }
  }

  /** The calls on a terminal experiment. */
  lemma TerminalCalls(x: Experiment, trail: seq<Call>, r: Outcome)
    requires TerminalTrail(x, trail, r)
    ensures NoInject(trail) && StopsAtFailure(trail, r)
    ensures forall j: nat | j < |trail| && trail[j].Release? :: j > 0 && trail[j - 1] == FinalizerUpdate(false, true)
    ensures forall j: nat | j < |trail| && trail[j].FinalizerUpdate? ::
      x.finalizer && (x.status.phase.Aborted? ==> j > 0 && trail[j - 1].Revert?)
  {
    if x.finalizer {
      var k := if x.status.phase.Aborted? then 1 else 0;
      if trail[k].ok {
        var rest := trail[k + 2..];
        assert BackfillTrail(x, rest, r);
        assert forall j | k + 2 <= j < |trail| :: trail[j] == rest[j - k - 2];
      }
    }
  }

  /** The lock is released only directly after a terminal status was stored; or after a successful revert,
      in a deletion; or of an experiment that is terminal already, after its finalizer went. */
  lemma ReleaseOnlyAtEnd(seen: Option<Experiment>, checks: Checks, at: int, trail: seq<Call>, r: Outcome, j: nat)
    requires ReconcileTrail(seen, checks, at, trail, r) && j < |trail| && trail[j].Release?
    ensures seen.Some? && j > 0
    ensures var x := seen.value;
      if x.deleting then trail[j - 1] == Call.Revert(true)
      else if Terminal(x.status.phase) then trail[j - 1] == FinalizerUpdate(false, true)
      else AfterTerminalWrite(trail, j)
  {
    var x := seen.value;
    if x.deleting {
    } else if Terminal(x.status.phase) {
      TerminalCalls(x, trail, r);
    } else {
      ActiveIsOrderly(x, checks, at, trail, r);
    }
  }

  lemma ActiveIsOrderly(x: Experiment, checks: Checks, at: int, trail: seq<Call>, r: Outcome)
    requires ReconcileTrail(Some(x), checks, at, trail, r) && !x.deleting && !Terminal(x.status.phase)
    ensures Orderly(trail, r)
  {
    if x.status.observedGeneration != 0 && x.generation != x.status.observedGeneration {
      AbortIsOrderly(x.spec.operator, x.status.phase, trail, r);
    } else if x.status.phase.Pending? || x.status.phase.Unset? {
      PendingIsOrderly(x, checks, trail, r);
    } else {
      RunningIsOrderly(x, checks, at, trail, r);
    }
  }

  /** The finalizer is taken off only in a deletion, after a revert that succeeded, or off a terminal
      experiment, if aborted after an attempt to revert. */
  lemma FinalizerGoesAfterRevert(seen: Option<Experiment>, checks: Checks, at: int, trail: seq<Call>, r: Outcome, j: nat)
    requires ReconcileTrail(seen, checks, at, trail, r) && j < |trail| && trail[j].FinalizerUpdate? && !trail[j].present
    ensures seen.Some?
    ensures var x := seen.value;
      && x.finalizer && (x.deleting || Terminal(x.status.phase))
      && (x.deleting ==> exists i :: 0 <= i < j && trail[i] == Call.Revert(true))
      && (!x.deleting && x.status.phase.Aborted? ==> j > 0 && trail[j - 1].Revert?)
  {
    var x := seen.value;
    if x.deleting {
      assert trail[0] == Call.Revert(true);
    } else if Terminal(x.status.phase) {
      TerminalCalls(x, trail, r);
    } else {
      ActiveIsOrderly(x, checks, at, trail, r);
      assert false;
    }
  }

  /** In whatever phase, nothing follows a failed status write. */
  lemma FailedWriteEndsReconcile(seen: Option<Experiment>, checks: Checks, at: int, trail: seq<Call>, r: Outcome)
    requires ReconcileTrail(seen, checks, at, trail, r)
    ensures StopsAtFailure(trail, r)
  {
    if seen.Some? {
      var x := seen.value;
      if x.deleting {
      } else if Terminal(x.status.phase) {
        TerminalCalls(x, trail, r);
      } else {
        ActiveIsOrderly(x, checks, at, trail, r);
      }
    }
  }

  // --- what the checks decide ---

  /** Status writes that belong to an abort, or record nothing but times and counts. */
  predicate StaysOrEnds(p: Phase, st: Status) {
    st.phase == p || st.phase.Aborted?
  }

  lemma AbortOnlyEnds(op: Operator, p: Phase, trail: seq<Call>, r: Outcome)
    requires AbortTrail(op, p, trail, r)
    ensures forall c | c in trail && c.StatusUpdate? :: c.st.phase.Aborted?
  {
    var k := if p.Injecting? then 2 else if p.Observing? || p.SteadyStatePost? then 1 else 0;
    if !(p.Injecting? && !trail[0].ok) {
      assert trail == trail[..k] + trail[k..];
    }
  }

  /** What has to be so for the status of x to be written with this phase. */
  predicate Warranted(x: Experiment, checks: Checks, at: int, p: Phase) {
    var s := x.status;
    match p
    case SteadyStatePre => (s.phase.Unset? || s.phase.Pending?) && checks.valid
    case Injecting => s.phase.Injecting? || (s.phase.SteadyStatePre? && checks.preCheck == Some(true))
    case Observing => s.phase.Injecting? || s.phase.Observing?
    case SteadyStatePost =>
      s.phase.SteadyStatePost?
      || (s.phase.Observing? && s.faultRevertedAt.Some? && at >= s.faultRevertedAt.value + x.spec.Recovery())
    case Complete =>
      checks.finalCheck.Some? && !checks.poll.PollFailed?
      && (s.phase.Evaluating?
          || (s.phase.SteadyStatePost? && s.postCheckStartedAt.Some?
              && (checks.poll != Polled(false) || at >= s.postCheckStartedAt.value + x.spec.Recovery())))
    case Aborted => true
    case _ => false
  }

  ghost predicate AllWarranted(x: Experiment, checks: Checks, at: int, trail: seq<Call>) {
    forall c | c in trail && c.StatusUpdate? :: Warranted(x, checks, at, c.st.phase)
  }

  lemma AbortIsWarranted(x: Experiment, checks: Checks, at: int, p: Phase, trail: seq<Call>, r: Outcome)
    requires AbortTrail(x.spec.operator, p, trail, r)
    ensures AllWarranted(x, checks, at, trail)
  {
    AbortOnlyEnds(x.spec.operator, p, trail, r);
  }

  lemma WarrantedBehind(x: Experiment, checks: Checks, at: int, trail: seq<Call>, k: nat)
    requires k <= |trail| && AllWarranted(x, checks, at, trail[k..])
    requires forall i | 0 <= i < k && trail[i].StatusUpdate? :: Warranted(x, checks, at, trail[i].st.phase)
    ensures AllWarranted(x, checks, at, trail)
  {
    assert trail == trail[..k] + trail[k..];
  }

  lemma FaultIsWarranted(x: Experiment, checks: Checks, at: int, trail: seq<Call>, r: Outcome)
    requires x.status.phase.Injecting? && FaultTrail(x.spec.operator, trail, r)
    ensures AllWarranted(x, checks, at, trail)
  {
    if !trail[0].ok { AbortIsWarranted(x, checks, at, Injecting, trail[1..], r); }
    WarrantedBehind(x, checks, at, trail, 1);
  }

  lemma InjectIsWarranted(x: Experiment, checks: Checks, at: int, trail: seq<Call>, r: Outcome)
    requires x.status.phase.Injecting? && InjectTrail(x, trail, r)
    ensures AllWarranted(x, checks, at, trail)
  {
    if x.status.injectionStartedAt.Some? {
      if !x.finalizer && trail[0].ok { WarrantedBehind(x, checks, at, trail, 1); }
    } else if trail[0].ok {
      var rest := trail[1..];
      if x.finalizer {
        FaultIsWarranted(x, checks, at, rest, r);
        WarrantedBehind(x, checks, at, trail, 1);
      } else if rest[0].ok && rest[1].ok {
        FaultIsWarranted(x, checks, at, rest[2..], r);
        assert trail[3..] == rest[2..] && trail[1] == rest[0] && trail[2] == rest[1];
        WarrantedBehind(x, checks, at, trail, 3);
      }
    }
  }

  lemma ObserveIsWarranted(x: Experiment, checks: Checks, at: int, trail: seq<Call>, r: Outcome)
    requires x.status.phase.Observing? && ObserveTrail(x, at, trail, r)
    ensures AllWarranted(x, checks, at, trail)
  {
    if x.status.injectionStartedAt.None? {
      AbortIsWarranted(x, checks, at, Observing, trail, r);
    } else if x.status.faultRevertedAt.None? && trail != [] {
      var rest := trail[1..];
      if !trail[0].result.Granted? { AbortIsWarranted(x, checks, at, Observing, rest, r); }
      WarrantedBehind(x, checks, at, trail, 1);
    }
  }

  lemma EvaluateIsWarranted(x: Experiment, checks: Checks, at: int, trail: seq<Call>, r: Outcome)
    requires EvaluateTrail(x.spec.operator, trail, r) && Warranted(x, checks, at, Complete)
    ensures AllWarranted(x, checks, at, trail)
  {
  }

  lemma PostCheckIsWarranted(x: Experiment, checks: Checks, at: int, trail: seq<Call>, r: Outcome)
    requires x.status.phase.SteadyStatePost? && PostCheckTrail(x, checks, at, trail, r)
    ensures AllWarranted(x, checks, at, trail)
  {
    var s := x.status;
    if s.postCheckStartedAt.Some? {
      if checks.poll.PollFailed? {
        AbortIsWarranted(x, checks, at, SteadyStatePost, trail, r);
      } else if checks.poll == Polled(false) && at < s.postCheckStartedAt.value + x.spec.Recovery() {
      } else if checks.finalCheck.None? {
        AbortIsWarranted(x, checks, at, SteadyStatePost, trail, r);
      } else {
        EvaluateIsWarranted(x, checks, at, trail, r);
      }
    }
  }

  lemma DispatchIsWarranted(x: Experiment, checks: Checks, at: int, trail: seq<Call>, r: Outcome)
    requires DispatchTrail(x, checks, at, trail, r)
    ensures AllWarranted(x, checks, at, trail)
  {
    match x.status.phase
    case Unset => PendingIsWarranted(x, checks, at, trail, r);
    case Pending => PendingIsWarranted(x, checks, at, trail, r);
    case SteadyStatePre => if checks.preCheck != Some(true) { AbortIsWarranted(x, checks, at, SteadyStatePre, trail, r); }
    case Injecting => InjectIsWarranted(x, checks, at, trail, r);
    case Observing => ObserveIsWarranted(x, checks, at, trail, r);
    case SteadyStatePost => PostCheckIsWarranted(x, checks, at, trail, r);
    case Evaluating =>
      if checks.poll.PollFailed? || checks.finalCheck.None? {
        AbortIsWarranted(x, checks, at, Evaluating, trail, r);
      } else {
        EvaluateIsWarranted(x, checks, at, trail, r);
      }
    case Complete => AbortIsWarranted(x, checks, at, Complete, trail, r);
    case Aborted => AbortIsWarranted(x, checks, at, Aborted, trail, r);
    case Unrecognized => AbortIsWarranted(x, checks, at, Unrecognized, trail, r);
  }

  lemma PendingIsWarranted(x: Experiment, checks: Checks, at: int, trail: seq<Call>, r: Outcome)
    requires (x.status.phase.Unset? || x.status.phase.Pending?) && PendingTrail(x, checks, trail, r)
    ensures AllWarranted(x, checks, at, trail)
  {
    if !checks.valid {
      AbortIsWarranted(x, checks, at, Pending, trail, r);
    } else if trail[0].result.Granted? {
      WarrantedBehind(x, checks, at, trail, 1);
    }
  }

  lemma RunningIsWarranted(x: Experiment, checks: Checks, at: int, trail: seq<Call>, r: Outcome)
    requires RenewedTrail(x, checks, at, trail, r)
    ensures AllWarranted(x, checks, at, trail)
  {
    var rest := trail[1..];
    if trail[0].result.HolderMismatch? || trail[0].result.LockNotFound? {
      AbortIsWarranted(x, checks, at, x.status.phase, rest, r);
    } else if trail[0].result.Granted? {
      DispatchIsWarranted(x, checks, at, rest, r);
    }
    WarrantedBehind(x, checks, at, trail, 1);
  }

  /** Of an experiment that has not ended and is not being deleted, a phase is stored only if the checks of
      this reconcile, or the times on record, allow it: a pre-check of valid parameters, an injection after
      a pre-check that passed, a post-check after the recovery window, completion after a final check once
      everything is reconciled or the deadline has passed. */
  lemma PhasesAreWarranted(x: Experiment, checks: Checks, at: int, trail: seq<Call>, r: Outcome)
    requires ReconcileTrail(Some(x), checks, at, trail, r) && !x.deleting && !Terminal(x.status.phase)
    ensures AllWarranted(x, checks, at, trail)
  {
    if x.status.observedGeneration != 0 && x.generation != x.status.observedGeneration {
      AbortIsWarranted(x, checks, at, x.status.phase, trail, r);
    } else if x.status.phase.Pending? || x.status.phase.Unset? {
      PendingIsWarranted(x, checks, at, trail, r);
    } else {
      RunningIsWarranted(x, checks, at, trail, r);
    }
  }

  /** The last call stored that the fault was reverted. */
  predicate RecordsRevert(trail: seq<Call>) {
    && trail != [] && var c := trail[|trail| - 1];
       c.StatusUpdate? && c.ok && c.st.phase.Observing? && c.st.faultRevertedAt.Some?
  }

  /** The requeue of an observed experiment, after the calls that follow the renewal: a waiting fault is looked at
      again no later than it is due, a reverted one no later than the end of its recovery window. */
  predicate LooksAgainInTime(x: Experiment, at: int, rest: seq<Call>, r: Outcome)
    requires r.RequeueAfter?
  {
    var s := x.status;
    s.phase.Observing? && s.injectionStartedAt.Some? ==>
      && (rest == [] && s.faultRevertedAt.None? ==> at + r.ms <= s.injectionStartedAt.value + x.spec.Deadline())
      && (rest == [] && s.faultRevertedAt.Some? ==> at + r.ms <= s.faultRevertedAt.value + x.spec.Recovery())
      && (RecordsRevert(rest) ==> r.ms <= x.spec.Recovery())
  }

  /** A reconcile is repeated within 30 seconds, far sooner than a lease runs out, and in time for what is
      observed. */
  lemma RequeuesInTime(seen: Option<Experiment>, checks: Checks, at: int, trail: seq<Call>, r: Outcome)
    requires ReconcileTrail(seen, checks, at, trail, r) && r.RequeueAfter?
    ensures seen.Some? && 0 < r.ms <= 30 * SECOND
    ensures trail != [] && trail[0].Renew? && trail[0].result.Granted? ==> LooksAgainInTime(seen.value, at, trail[1..], r)
  {
    if !seen.value.deleting && !Terminal(seen.value.status.phase) { ActiveRequeuesInTime(seen.value, checks, at, trail, r); }
  }

  /** The lease that a pending experiment asks for lasts, to the second, until after the deadline of the fault
      and the recovery window; with a TTL of its own, until after the deadline of the post-check, too. */
  lemma LeaseOutlastsRun(spec: Spec)
    requires RunTime(spec) < 0x8000_0000 * SECOND
    ensures RunTime(spec) > 0
    ensures var lasting := LeaseSeconds(RunTime(spec)) * SECOND;
      && lasting > spec.Deadline() + spec.Recovery() - SECOND
      && (spec.ttl > 0 ==> lasting > spec.Deadline() + spec.Recovery() + spec.Recovery() - SECOND)
  {
    LeaseCovers(RunTime(spec));
  }

  lemma HandlerRequeuesInTime(x: Experiment, checks: Checks, at: int, rest: seq<Call>, r: Outcome)
    requires DispatchTrail(x, checks, at, rest, r) && r.RequeueAfter?
    ensures 0 < r.ms <= 30 * SECOND && LooksAgainInTime(x, at, rest, r)
  {
  }

  lemma ActiveRequeuesInTime(x: Experiment, checks: Checks, at: int, trail: seq<Call>, r: Outcome)
    requires RunningTrail(x, checks, at, trail, r) && r.RequeueAfter? && !Terminal(x.status.phase)
    ensures 0 < r.ms <= 30 * SECOND
    ensures trail != [] && trail[0].Renew? && trail[0].result.Granted? ==> LooksAgainInTime(x, at, trail[1..], r)
  {
    if !(x.status.observedGeneration != 0 && x.generation != x.status.observedGeneration)
       && !(x.status.phase.Pending? || x.status.phase.Unset?) && trail[0].result.Granted? {
      HandlerRequeuesInTime(x, checks, at, trail[1..], r);
    }
  }
}
