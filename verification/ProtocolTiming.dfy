/** What the stored times say of the real ones, over whole runs: how long a fault is in place, when it
    was reverted, and that renewing leases in time is a matter of the reconciles that renew them. */
module ProtocolTiming {
  import opened Wrappers
  import opened ExperimentWorld
  import opened ProtocolInvariant
  import opened ProtocolSafety

  lemma StepOf(ws: seq<World>, acts: seq<Action>, i: nat)
    requires IsRun(ws, acts) && i < |acts|
    ensures CanStep(ws[i], acts[i]) && ws[i + 1] == Step(ws[i], acts[i]) && Inv(ws[i]) && Timely(ws[i])
  {
    RunKeepsInv(ws, acts, i);
  }

  lemma ClockMovesForward(ws: seq<World>, acts: seq<Action>, i: nat, j: nat)
    requires IsRun(ws, acts) && i <= j < |ws|
    ensures ws[i].now <= ws[j].now
    decreases j - i
  {
    if i < j {
      StepOf(ws, acts, i);
      ClockMovesForward(ws, acts, i + 1, j);
    }
  }

  // --- reverts of experiments that complete ---

  /** e can not complete any more. */
  predicate IsDoomed(w: World, e: Name) {
    && e in w.exps
    && var x := w.exps[e];
       || x.status.phase.Aborted?
       || (!x.status.phase.Complete? && x.deleting)
       || (x.status.phase.Observing? && x.status.faultRevertedAt.None? && HasReasonToAbort(w, e))
  }

  lemma StaysDoomed(w: World, a: Action, e: Name)
    requires Inv(w) && Timely(w) && CanStep(w, a) && IsDoomed(w, e)
    ensures IsDoomed(Step(w, a), e)
  {
    if a.By? && a.who == e {
      if a.eff.WriteStatus? { WriteStaysDoomed(w, e, a.eff.kind, a.eff.st); } else { EffectStaysDoomed(w, e, a.eff); }
    } else {
      OthersStayWithinRely(e, w, a);
      RelyStaysDoomed(w, Step(w, a), e);
    }
  }

  lemma RelyStaysDoomed(w: World, w': World, e: Name)
    requires Inv(w) && Rely(e, w, w') && IsDoomed(w, e)
    ensures IsDoomed(w', e)
  {
    assert ExperimentInv(w, e);
    var op := w.exps[e].spec.operator;
    if op in w'.leases { assert KeptOrForeign(e, w, w', op); }
  }

  lemma WriteStaysDoomed(w: World, e: Name, kind: Write, st: Status)
    requires Inv(w) && Enabled(w, e, WriteStatus(kind, st)) && IsDoomed(w, e)
    ensures IsDoomed(Apply(w, e, WriteStatus(kind, st)), e)
  {
    assert ExperimentInv(w, e);
  }

  lemma EffectStaysDoomed(w: World, e: Name, eff: Effect)
    requires Inv(w) && Enabled(w, e, eff) && IsDoomed(w, e) && !eff.WriteStatus?
    ensures IsDoomed(Apply(w, e, eff), e)
  {
    assert ExperimentInv(w, e);
  }

  lemma {:induction false} DoomedNeverCompletes(ws: seq<World>, acts: seq<Action>, i: nat, j: nat, e: Name)
    requires IsRun(ws, acts) && i <= j < |ws| && IsDoomed(ws[i], e)
    ensures e in ws[j].exps && !ws[j].exps[e].status.phase.Complete?
    decreases j - i
  {
    if i < j {
      StepOf(ws, acts, i);
      StaysDoomed(ws[i], acts[i], e);
      DoomedNeverCompletes(ws, acts, i + 1, j, e);
    }
  }

  predicate Reverts(a: Action, e: Name) {
    a.By? && a.who == e && a.eff.RevertFault?
  }

  /** Whatever attempts are made to revert the fault of an experiment that completes, no attempt comes
      before the revert is due by its recorded start. */
  lemma RevertsWhenDue(ws: seq<World>, acts: seq<Action>, i: nat, j: nat, e: Name)
    requires IsRun(ws, acts) && i < j < |ws| && Reverts(acts[i], e)
    requires e in ws[j].exps && ws[j].exps[e].status.phase.Complete?
    ensures e in ws[i].exps && ws[i].exps[e].status.injectionStartedAt.Some? && DueForRevert(ws[i], e)
  {
    StepOf(ws, acts, i);
    assert ExperimentInv(ws[i], e);
    if IsDoomed(ws[i], e) { DoomedNeverCompletes(ws, acts, i, j, e); }
  }

  /** From its injection on, unless it is aborted, an experiment keeps its start and its spec. */
  predicate HasStarted(w: World, e: Name, start: int, spec: Spec) {
    && e in w.exps && e in w.injected && w.exps[e].spec == spec
    && (w.exps[e].status.injectionStartedAt == Some(start) || w.exps[e].status.phase.Aborted?)
  }

  lemma {:induction false} StartIsKept(ws: seq<World>, acts: seq<Action>, i: nat, j: nat, e: Name, start: int, spec: Spec)
    requires IsRun(ws, acts) && i <= j < |ws| && HasStarted(ws[i], e, start, spec)
    ensures HasStarted(ws[j], e, start, spec)
    decreases j - i
  {
    if i < j {
      StepOf(ws, acts, i);
      StepKeepsStart(ws[i], acts[i], e, start, spec);
      StartIsKept(ws, acts, i + 1, j, e, start, spec);
    }
  }

  lemma StepKeepsStart(w: World, a: Action, e: Name, start: int, spec: Spec)
    requires Inv(w) && Timely(w) && CanStep(w, a) && HasStarted(w, e, start, spec)
    ensures HasStarted(Step(w, a), e, start, spec)
  {
    if a.By? && a.who == e {
      if a.eff.WriteStatus? { WriteKeepsStart(w, e, a.eff.kind, a.eff.st, start, spec); }
    } else {
      OthersStayWithinRely(e, w, a);
      assert SameOwnStatus(w, Step(w, a), e);
    }
  }

  lemma WriteKeepsStart(w: World, e: Name, kind: Write, st: Status, start: int, spec: Spec)
    requires Enabled(w, e, WriteStatus(kind, st)) && HasStarted(w, e, start, spec)
    ensures HasStarted(Apply(w, e, WriteStatus(kind, st)), e, start, spec)
  {
  }

  /** The fault is injected in the reconcile that recorded its start: the start is no earlier than the
      beginning of that reconcile and no later than the injection. */
  lemma StartIsTrue(ws: seq<World>, acts: seq<Action>, h: nat, e: Name)
    requires IsRun(ws, acts) && h < |acts| && acts[h].By? && acts[h].who == e && acts[h].eff.InjectFault?
    ensures e in ws[h].exps && e in ws[h].began && ws[h].exps[e].status.injectionStartedAt.Some?
    ensures ws[h].began[e] <= ws[h].exps[e].status.injectionStartedAt.value <= ws[h].now
    ensures HasStarted(ws[h + 1], e, ws[h].exps[e].status.injectionStartedAt.value, ws[h].exps[e].spec)
  {
    StepOf(ws, acts, h);
  }

  /** No attempt to revert the fault of an experiment that completes comes earlier than its deadline
      after the beginning of the reconcile that injected it. */
  lemma FaultKeepsItsTime(ws: seq<World>, acts: seq<Action>, h: nat, r: nat, j: nat, e: Name)
    requires IsRun(ws, acts) && h < r < j < |ws|
    requires acts[h].By? && acts[h].who == e && acts[h].eff.InjectFault? && Reverts(acts[r], e)
    requires e in ws[j].exps && ws[j].exps[e].status.phase.Complete?
    ensures e in ws[h].began && ws[r].now >= ws[h].began[e] + ws[j].exps[e].spec.Deadline()
  {
    StartIsTrue(ws, acts, h, e);
    var start, spec := ws[h].exps[e].status.injectionStartedAt.value, ws[h].exps[e].spec;
    StartIsKept(ws, acts, h + 1, r, e, start, spec);
    StartIsKept(ws, acts, h + 1, j, e, start, spec);
    RevertsWhenDue(ws, acts, r, j, e);
    PhasesMoveForward(ws, acts, r, j, e);
  }

  lemma {:induction false} ActiveUntilReverted(ws: seq<World>, acts: seq<Action>, i: nat, m: nat, e: Name)
    requires IsRun(ws, acts) && i <= m < |ws| && e in ws[i].active
    ensures e in ws[m].active || exists r :: i <= r < m && Reverts(acts[r], e)
    decreases m - i
  {
    if i < m {
      StepOf(ws, acts, i);
      if e in ws[i + 1].active { ActiveUntilReverted(ws, acts, i + 1, m, e); } else { assert Reverts(acts[i], e); }
    }
  }

  /** A fault that takes, of an experiment that completes, is in place at every instant up to its deadline
      after the beginning of the reconcile that injected it. */
  lemma FaultStaysUntilDue(ws: seq<World>, acts: seq<Action>, h: nat, m: nat, j: nat, e: Name)
    requires IsRun(ws, acts) && h < m <= j < |ws| && acts[h] == By(e, InjectFault(true))
    requires e in ws[j].exps && ws[j].exps[e].status.phase.Complete?
    ensures e in ws[h].began && (ws[m].now < ws[h].began[e] + ws[j].exps[e].spec.Deadline() ==> e in ws[m].active)
  {
    StartIsTrue(ws, acts, h, e);
    StepOf(ws, acts, h);
    ActiveUntilReverted(ws, acts, h + 1, m, e);
    if r :| h + 1 <= r < m && Reverts(acts[r], e) {
      FaultKeepsItsTime(ws, acts, h, r, j, e);
      ClockMovesForward(ws, acts, r, m);
    }
  }

  // --- the recorded revert ---

  predicate RevertedAt(ws: seq<World>, acts: seq<Action>, r: nat, e: Name, at: int)
    requires |ws| == |acts| + 1
  {
    r < |acts| && acts[r] == By(e, RevertFault(true, true)) && ws[r].now == at
  }

  lemma {:induction false} RevertedIsReal(ws: seq<World>, acts: seq<Action>, i: nat, e: Name) returns (r: nat)
    requires IsRun(ws, acts) && i < |ws| && e in ws[i].reverted
    ensures r < i && RevertedAt(ws, acts, r, e, ws[i].reverted[e])
  {
    assert i > 0;
    StepOf(ws, acts, i - 1);
    if Reverts(acts[i - 1], e) && acts[i - 1].eff.ok { r := i - 1; } else { r := RevertedIsReal(ws, acts, i - 1, e); }
  }

  /** Where the revert time was recorded. */
  lemma {:induction false} RecordedBefore(ws: seq<World>, acts: seq<Action>, j: nat, e: Name) returns (k: nat)
    requires IsRun(ws, acts) && j < |ws| && e in ws[j].exps && ws[j].exps[e].status.faultRevertedAt.Some?
    ensures k < j && acts[k].By? && acts[k].who == e && acts[k].eff.WriteStatus? && acts[k].eff.kind.RevertTime?
    ensures e in ws[k].exps && e in ws[k].began && acts[k].eff.st.faultRevertedAt == ws[j].exps[e].status.faultRevertedAt
  {
    NothingAtFirst(ws, acts, j, e);
    StepOf(ws, acts, j - 1);
    StatusChangesByWrite(ws[j - 1], acts[j - 1], e);
    if ws[j - 1].exps[e].status.faultRevertedAt == ws[j].exps[e].status.faultRevertedAt {
      k := RecordedBefore(ws, acts, j - 1, e);
    } else {
      k := j - 1;
      RevertTimeIsWritten(ws[k], e, acts[k].eff.kind, acts[k].eff.st);
    }
  }

  lemma NothingAtFirst(ws: seq<World>, acts: seq<Action>, j: nat, e: Name)
    requires IsRun(ws, acts) && j < |ws| && e in ws[j].exps
    requires ws[j].exps[e].status.faultRevertedAt.Some? || ws[j].exps[e].status.phase.SteadyStatePre? || PastPreCheck(ws[j].exps[e].status.phase)
    ensures j > 0
  {
    forall f | f in ws[0].exps
      ensures ws[0].exps[f].status.faultRevertedAt.None?
      ensures var p := ws[0].exps[f].status.phase; !p.SteadyStatePre? && !PastPreCheck(p)
    {
      assert FreshExperiment(ws[0], f);
    }
  }

  /** The status of e changes by its own writes only. */
  lemma StatusChangesByWrite(w: World, a: Action, e: Name)
    requires Inv(w) && Timely(w) && CanStep(w, a) && e in Step(w, a).exps
    ensures e in w.exps && w.exps[e].generation <= Step(w, a).exps[e].generation
    ensures Step(w, a).exps[e].status != w.exps[e].status ==>
      a.By? && a.who == e && a.eff.WriteStatus? && Step(w, a).exps[e].status == a.eff.st
  {
    if !(a.By? && a.who == e) {
      OthersStayWithinRely(e, w, a);
      assert SameOwnStatus(w, Step(w, a), e);
    }
  }

  lemma RevertTimeIsWritten(w: World, e: Name, kind: Write, st: Status)
    requires Enabled(w, e, WriteStatus(kind, st)) && st.faultRevertedAt != w.exps[e].status.faultRevertedAt
    ensures kind.RevertTime?
  {
  }

  lemma {:induction false} GoneForGood(ws: seq<World>, acts: seq<Action>, i: nat, m: nat, e: Name)
    requires IsRun(ws, acts) && i <= m < |ws| && e in ws[i].injected && e !in ws[i].active
    ensures e in ws[m].injected && e !in ws[m].active
    decreases m - i
  {
    if i < m {
      StepOf(ws, acts, i);
      GoneForGood(ws, acts, i + 1, m, e);
    }
  }

  /** The recorded time of a revert is true: a revert had succeeded by then, in the same reconcile, and
      the time is no later than when it was recorded; of an injected fault nothing was in place any more. */
  lemma RecordedRevertIsReal(ws: seq<World>, acts: seq<Action>, j: nat, e: Name) returns (r: nat, k: nat)
    requires IsRun(ws, acts) && j < |ws| && e in ws[j].exps && ws[j].exps[e].status.faultRevertedAt.Some?
    ensures r < k < j && acts[r] == By(e, RevertFault(true, true)) && e in ws[k].began
    ensures ws[k].began[e] <= ws[r].now <= ws[j].exps[e].status.faultRevertedAt.value <= ws[k].now
    ensures e in ws[k].injected ==> forall m | k <= m <= j :: e !in ws[m].active
  {
    k := RecordedBefore(ws, acts, j, e);
    StepOf(ws, acts, k);
    r := RevertedIsReal(ws, acts, k, e);
    if e in ws[k].injected {
      forall m | k <= m <= j ensures e !in ws[m].active { GoneForGood(ws, acts, k, m, e); }
    }
  }

  // --- edits of the spec ---

  /** The spec was edited after the experiment had started and before its injection, or all is over. */
  predicate IsBarred(w: World, e: Name) {
    && e in w.exps
    && var x := w.exps[e];
       || Terminal(x.status.phase)
       || (x.Mutated() && x.status.injectionStartedAt.None? && (x.status.phase.SteadyStatePre? || x.status.phase.Injecting?))
  }

  lemma StaysBarred(w: World, a: Action, e: Name)
    requires Inv(w) && Timely(w) && CanStep(w, a) && IsBarred(w, e)
    ensures IsBarred(Step(w, a), e) && !(a.By? && a.who == e && a.eff.InjectFault?)
  {
    assert ExperimentInv(w, e);
    if a.By? && a.who == e {
      if a.eff.WriteStatus? { WriteStaysBarred(w, e, a.eff.kind, a.eff.st); } else { EffectStaysBarred(w, e, a.eff); }
    } else {
      OthersStayWithinRely(e, w, a);
      assert SameOwnStatus(w, Step(w, a), e);
    }
  }

  lemma WriteStaysBarred(w: World, e: Name, kind: Write, st: Status)
    requires Enabled(w, e, WriteStatus(kind, st)) && IsBarred(w, e)
    ensures IsBarred(Apply(w, e, WriteStatus(kind, st)), e)
  {
  }

  lemma EffectStaysBarred(w: World, e: Name, eff: Effect)
    requires Inv(w) && Enabled(w, e, eff) && IsBarred(w, e) && !eff.WriteStatus?
    ensures IsBarred(Apply(w, e, eff), e) && !eff.InjectFault?
  {
    assert ExperimentInv(w, e);
  }

  lemma {:induction false} BarredIsNotInjected(ws: seq<World>, acts: seq<Action>, i: nat, j: nat, e: Name)
    requires IsRun(ws, acts) && i <= j < |acts| && IsBarred(ws[i], e)
    ensures !(acts[j].By? && acts[j].who == e && acts[j].eff.InjectFault?)
    decreases j - i
  {
    StepOf(ws, acts, i);
    StaysBarred(ws[i], acts[i], e);
    if i < j { BarredIsNotInjected(ws, acts, i + 1, j, e); }
  }

  /** A spec that is edited between the pre-check and the injection is never injected. */
  lemma EditedSpecIsNotInjected(ws: seq<World>, acts: seq<Action>, i: nat, j: nat, e: Name)
    requires IsRun(ws, acts) && i < j < |acts| && acts[i].Elsewhere? && acts[i].what.UserEdit? && acts[i].what.target == e
    requires e in ws[i].exps && ws[i].exps[e].status.observedGeneration != 0 && ws[i].exps[e].status.injectionStartedAt.None?
    requires ws[i].exps[e].status.phase.SteadyStatePre? || ws[i].exps[e].status.phase.Injecting?
    ensures !(acts[j].By? && acts[j].who == e && acts[j].eff.InjectFault?)
  {
    StepOf(ws, acts, i);
    assert ExperimentInv(ws[i], e);
    BarredIsNotInjected(ws, acts, i + 1, j, e);
  }

  /** The phases past Pending have a generation on record. */
  lemma {:induction false} GenerationIsRecorded(ws: seq<World>, acts: seq<Action>, i: nat, e: Name)
    requires IsRun(ws, acts) && i < |ws| && e in ws[i].exps && (ws[i].exps[e].status.phase.SteadyStatePre? || PastPreCheck(ws[i].exps[e].status.phase))
    requires forall f | f in ws[0].exps :: ws[0].exps[f].generation > 0
    ensures ws[i].exps[e].status.observedGeneration != 0 && ws[i].exps[e].generation > 0
  {
    GenerationsArePositive(ws, acts, i, e);
    NothingAtFirst(ws, acts, i, e);
    StepOf(ws, acts, i - 1);
    StatusChangesByWrite(ws[i - 1], acts[i - 1], e);
    GenerationsArePositive(ws, acts, i - 1, e);
    if ws[i - 1].exps[e].status == ws[i].exps[e].status {
      GenerationIsRecorded(ws, acts, i - 1, e);
    } else {
      var p := ws[i - 1].exps[e].status.phase;
      if p.SteadyStatePre? || PastPreCheck(p) { GenerationIsRecorded(ws, acts, i - 1, e); }
      WriteRecordsGeneration(ws[i - 1], e, acts[i - 1].eff.kind, acts[i - 1].eff.st);
    }
  }

  lemma WriteRecordsGeneration(w: World, e: Name, kind: Write, st: Status)
    requires Enabled(w, e, WriteStatus(kind, st)) && w.exps[e].generation > 0
    requires st.phase.SteadyStatePre? || PastPreCheck(st.phase)
    requires var p := w.exps[e].status.phase; p.SteadyStatePre? || PastPreCheck(p) ==> w.exps[e].status.observedGeneration != 0
    ensures st.observedGeneration != 0
  {
  }

  lemma {:induction false} GenerationsArePositive(ws: seq<World>, acts: seq<Action>, i: nat, e: Name)
    requires IsRun(ws, acts) && i < |ws| && e in ws[i].exps
    requires forall f | f in ws[0].exps :: ws[0].exps[f].generation > 0
    ensures ws[i].exps[e].generation > 0
  {
    if i > 0 {
      StepOf(ws, acts, i - 1);
      StatusChangesByWrite(ws[i - 1], acts[i - 1], e);
      GenerationsArePositive(ws, acts, i - 1, e);
    }
  }

  // --- renewals ---

  /** A write of the lease by e. */
  predicate WritesLease(a: Action, e: Name, op: Operator) {
    a.By? && a.who == e &&
    match a.eff
    case CreateLease(o, _, _) => o == op
    case ReclaimLease(o, _, _) => o == op
    case RenewLease(o, _) => o == op
    case DeleteLease(o) => o == op
    case _ => false
  }

  /** The time that a write puts on the lease. */
  function TimeOn(eff: Effect): Option<int> {
    match eff
    case CreateLease(_, _, at) => Some(at)
    case ReclaimLease(_, _, at) => Some(at)
    case RenewLease(_, at) => Some(at)
    case _ => None
  }

  /** Step k was the last write of the lease by e before state i. */
  predicate IsLastWrite(acts: seq<Action>, k: nat, i: nat, e: Name, op: Operator) {
    k < i <= |acts| && WritesLease(acts[k], e, op) && forall j | k < j < i :: !WritesLease(acts[j], e, op)
  }

  /** A sequence of steps, in time or not. */
  ghost predicate AreSteps(ws: seq<World>, acts: seq<Action>) {
    && |ws| == |acts| + 1
    && (forall i {:trigger acts[i]} | 0 <= i < |acts| :: CanStep(ws[i], acts[i]) && ws[i + 1] == Step(ws[i], acts[i]))
  }

  /** A lease that e holds shows the time that e last put on it. */
  lemma {:induction false} LastWriteShows(ws: seq<World>, acts: seq<Action>, k: nat, i: nat, e: Name, op: Operator)
    requires AreSteps(ws, acts) && IsLastWrite(acts, k, i, e, op) && ws[i].HeldBy(op, e)
    ensures ws[i].leases[op].LastActive() == TimeOn(acts[k].eff)
  {
    assert CanStep(ws[i - 1], acts[i - 1]) && ws[i] == Step(ws[i - 1], acts[i - 1]);
    if k < i - 1 {
      assert !WritesLease(acts[i - 1], e, op);
      assert ws[i - 1].HeldBy(op, e);
      LastWriteShows(ws, acts, k, i - 1, e, op);
    }
  }

  /** The last write of its lease by e was in a reconcile that began at most 900 seconds ago. */
  ghost predicate RenewedByReconcile(ws: seq<World>, acts: seq<Action>, i: nat, e: Name)
    requires |ws| == |acts| + 1 && i < |ws| && e in ws[i].exps
  {
    exists k :: 0 <= k < i && IsLastWrite(acts, k, i, e, ws[i].exps[e].spec.operator) && e in ws[k].began
                && ws[i].now <= ws[k].began[e] + DEFAULT_LEASE_SECONDS * SECOND
  }

  ghost predicate ReconcilesInTime(ws: seq<World>, acts: seq<Action>, i: nat)
    requires |ws| == |acts| + 1 && i < |ws|
  {
    forall e | e in ws[i].exps && ws[i].exps[e].Guarded() && ws[i].HeldBy(ws[i].exps[e].spec.operator, e) ::
      RenewedByReconcile(ws, acts, i, e)
  }

  /** What runs assume of leases follows if every experiment past its pre-check wrote its lease in a
      reconcile that began at most 900 seconds ago: a renewal puts the present time on it. */
  lemma RunIfReconciledInTime(ws: seq<World>, acts: seq<Action>)
    requires AreSteps(ws, acts) && Initial(ws[0])
    requires forall i {:trigger ws[i]} | 0 <= i < |ws| :: ReconcilesInTime(ws, acts, i)
    ensures IsRun(ws, acts)
  {
    forall i {:trigger ws[i]} | 0 <= i < |ws| ensures Timely(ws[i]) {
      assert ReconcilesInTime(ws, acts, i);
      forall e | e in ws[i].exps ensures RenewedInTime(ws[i], e) {
        InTimeByReconcile(ws, acts, i, e);
      }
    }
  }

  lemma InTimeByReconcile(ws: seq<World>, acts: seq<Action>, i: nat, e: Name)
    requires AreSteps(ws, acts) && i < |ws| && e in ws[i].exps && ReconcilesInTime(ws, acts, i)
    ensures RenewedInTime(ws[i], e)
  {
    var op := ws[i].exps[e].spec.operator;
    if ws[i].exps[e].Guarded() && ws[i].HeldBy(op, e) {
      assert RenewedByReconcile(ws, acts, i, e);
      var k :| 0 <= k < i && IsLastWrite(acts, k, i, e, op) && e in ws[k].began
               && ws[i].now <= ws[k].began[e] + DEFAULT_LEASE_SECONDS * SECOND;
      LastWriteShows(ws, acts, k, i, e, op);
      assert CanStep(ws[k], acts[k]);
    }
  }
}
