/** Safety over whole runs: any number of experiments, any interleaving of the effects of
    their reconciles, lock calls, crashes (a reconcile that just stops), user actions and
    the clock. */
module ProtocolSafety {
  import opened Wrappers
  import opened ExperimentWorld
  import opened ProtocolInvariant

  /** No lease yet, and every experiment as its author created it. */
  ghost predicate Initial(w: World) {
    && w.leases == map[] && w.active == {} && w.injected == {} && w.revertFailed == {} && w.began == map[] && w.reverted == map[]
    && (forall e | e in w.exps :: FreshExperiment(w, e))
  }

  predicate FreshExperiment(w: World, e: Name)
    requires e in w.exps
  {
    var x := w.exps[e];
    && x.rv <= w.rev && !x.gone && x.status.observedGeneration == 0 && (x.status.phase.Unset? || x.status.phase.Pending?)
    && x.status.injectionStartedAt.None? && x.status.faultRevertedAt.None? && x.status.postCheckStartedAt.None?
  }

  /** A run: worlds and the actions between them, with every lease renewed in time. */
  ghost predicate IsRun(ws: seq<World>, acts: seq<Action>) {
    && |ws| == |acts| + 1 && Initial(ws[0])
    && (forall i {:trigger ws[i]} | 0 <= i < |ws| :: Timely(ws[i]))
    && (forall i {:trigger acts[i]} | 0 <= i < |acts| :: CanStep(ws[i], acts[i]) && ws[i + 1] == Step(ws[i], acts[i]))
  }

  lemma {:induction false} RunKeepsInv(ws: seq<World>, acts: seq<Action>, i: nat)
    requires IsRun(ws, acts) && i < |ws|
    ensures Inv(ws[i])
  {
    if i == 0 {
      forall e | e in ws[0].exps ensures ExperimentInv(ws[0], e) {
        assert FreshExperiment(ws[0], e);
      }
    } else {
      RunKeepsInv(ws, acts, i - 1);
      StepKeepsInv(ws[i - 1], acts[i - 1]);
    }
  }

  // --- mutual exclusion ---

  /** Of the experiments on one operator at most one is live: running, with its injection
      started, and not being deleted; and it is the holder of the operator's lease. */
  lemma AtMostOneLive(ws: seq<World>, acts: seq<Action>, i: nat, e: Name, f: Name)
    requires IsRun(ws, acts) && i < |ws| && e in ws[i].exps && f in ws[i].exps
    requires ws[i].exps[e].Live() && ws[i].exps[f].Live()
    requires ws[i].exps[e].spec.operator == ws[i].exps[f].spec.operator
    ensures e == f && ws[i].HeldBy(ws[i].exps[e].spec.operator, e)
  {
    RunKeepsInv(ws, acts, i);
    assert ExperimentInv(ws[i], e) && ExperimentInv(ws[i], f);
  }

  predicate RunsWithFault(w: World, e: Name) {
    e in w.exps && e in w.active && !Terminal(w.exps[e].status.phase)
  }

  /** Two running experiments have faults on the same operator at once only if one of
      them is being deleted: a deletion is retried without renewing the lease. */
  lemma OverlapOnlyDuringDeletion(ws: seq<World>, acts: seq<Action>, i: nat, e: Name, f: Name)
    requires IsRun(ws, acts) && i < |ws| && e != f
    requires RunsWithFault(ws[i], e) && RunsWithFault(ws[i], f)
    requires ws[i].exps[e].spec.operator == ws[i].exps[f].spec.operator
    ensures ws[i].exps[e].deleting || ws[i].exps[f].deleting
  {
    RunKeepsInv(ws, acts, i);
    assert ExperimentInv(ws[i], e) && ExperimentInv(ws[i], f);
    if !ws[i].exps[e].deleting && !ws[i].exps[f].deleting {
      AtMostOneLive(ws, acts, i, e, f);
    }
  }

  /** An active fault that its experiment no longer guards: a deletion waits for a revert to succeed,
      or an abort has stored its phase and kept its finalizer, or its last revert failed. */
  predicate Lingers(w: World, f: Name) {
    && f in w.exps && f in w.active
    && if Terminal(w.exps[f].status.phase)
       then w.exps[f].status.phase.Aborted? && (w.exps[f].finalizer || f in w.revertFailed)
       else w.exps[f].deleting && w.exps[f].finalizer && !w.exps[f].gone
  }

  lemma ActiveIsLiveOrLingers(ws: seq<World>, acts: seq<Action>, i: nat, f: Name)
    requires IsRun(ws, acts) && i < |ws| && f in ws[i].active
    ensures f in ws[i].exps && (ws[i].exps[f].Live() || Lingers(ws[i], f))
  {
    RunKeepsInv(ws, acts, i);
    assert ExperimentInv(ws[i], f);
  }

  /** Whatever their phases: faults of two experiments are active on one operator at once only if one
      of them lingers; and if one of the experiments is live, it is the other's. */
  lemma OverlapOnlyWithLingering(ws: seq<World>, acts: seq<Action>, i: nat, e: Name, f: Name)
    requires IsRun(ws, acts) && i < |ws| && e != f
    requires e in ws[i].exps && f in ws[i].active && (ws[i].exps[e].Live() || e in ws[i].active)
    requires f in ws[i].exps && ws[i].exps[e].spec.operator == ws[i].exps[f].spec.operator
    ensures Lingers(ws[i], e) || Lingers(ws[i], f)
    ensures ws[i].exps[e].Live() ==> Lingers(ws[i], f)
  {
    ActiveIsLiveOrLingers(ws, acts, i, f);
    if e in ws[i].active { ActiveIsLiveOrLingers(ws, acts, i, e); }
    if ws[i].exps[e].Live() && ws[i].exps[f].Live() {
      AtMostOneLive(ws, acts, i, e, f);
    }
  }

  // --- the fault and its cleanup ---

  /** A fault of a running experiment is always behind the crash barrier and the finalizer,
      and has no recorded revert. */
  lemma ActiveFaultIsCovered(ws: seq<World>, acts: seq<Action>, i: nat, e: Name)
    requires IsRun(ws, acts) && i < |ws| && RunsWithFault(ws[i], e)
    ensures var x := ws[i].exps[e];
      && x.finalizer && !x.gone
      && x.status.injectionStartedAt.Some? && x.status.faultRevertedAt.None?
      && (x.status.phase.Injecting? || x.status.phase.Observing?)
  {
    RunKeepsInv(ws, acts, i);
    assert ExperimentInv(ws[i], e);
  }

  /** An object vanishes, or loses its finalizer in a terminal phase, with its fault in
      place only if it was aborted and its last revert failed. */
  lemma FaultOutlivesOnlyFailedRevert(ws: seq<World>, acts: seq<Action>, i: nat, e: Name)
    requires IsRun(ws, acts) && i < |ws| && e in ws[i].active
    ensures e in ws[i].exps
    ensures ws[i].exps[e].gone || !ws[i].exps[e].finalizer ==>
      ws[i].exps[e].status.phase.Aborted? && e in ws[i].revertFailed
    ensures !ws[i].exps[e].status.phase.Complete?
  {
    RunKeepsInv(ws, acts, i);
    assert ExperimentInv(ws[i], e);
  }

  function Injections(acts: seq<Action>, e: Name): nat {
    if acts == [] then 0
    else
      var last := acts[|acts| - 1];
      Injections(acts[..|acts| - 1], e) + if last.By? && last.who == e && last.eff.InjectFault? then 1 else 0
  }

  lemma StepInjects(w: World, a: Action, e: Name)
    requires CanStep(w, a)
    ensures e in Step(w, a).injected <==> e in w.injected || (a.By? && a.who == e && a.eff.InjectFault?)
    ensures a.By? && a.who == e && a.eff.InjectFault? ==> e !in w.injected
  {
  }

  /** InjectFault is called at most once for each experiment. */
  lemma {:induction false} InjectedAtMostOnce(ws: seq<World>, acts: seq<Action>, i: nat, e: Name)
    requires IsRun(ws, acts) && i <= |acts|
    ensures Injections(acts[..i], e) == if e in ws[i].injected then 1 else 0
  {
    if i > 0 {
      InjectedAtMostOnce(ws, acts, i - 1, e);
      StepInjects(ws[i - 1], acts[i - 1], e);
      assert acts[..i][..i - 1] == acts[..i - 1] && acts[..i][i - 1] == acts[i - 1];
    }
  }

  // --- phases and times ---

  function Rank(p: Phase): nat {
    match p
    case Unset => 0
    case Unrecognized => 0
    case Pending => 0
    case SteadyStatePre => 1
    case Injecting => 2
    case Observing => 3
    case SteadyStatePost => 4
    case Evaluating => 5
    case Complete => 6
    case Aborted => 6
  }

  lemma TransitionMovesForward(x: Experiment, kind: Write, st: Status, f: Facts)
    requires Transition(x, kind, st, f)
    ensures var p, q := x.status.phase, st.phase;
      Rank(p) <= Rank(q) && (Terminal(p) ==> q == p) && (q.Evaluating? ==> p.Evaluating?)
  {
  }

  lemma StepMovesPhaseForward(w: World, a: Action, e: Name)
    requires CanStep(w, a) && e in w.exps
    ensures e in Step(w, a).exps
    ensures var p, q := w.exps[e].status.phase, Step(w, a).exps[e].status.phase;
      && Rank(p) <= Rank(q) && (Terminal(p) ==> q == p)
      && (q.Evaluating? ==> p.Evaluating?)
  {
    if a.By? && a.eff.WriteStatus? && a.who == e {
      TransitionMovesForward(w.exps[e], a.eff.kind, a.eff.st, FactsOf(w, e));
    }
  }

  /** The persisted phase never moves backwards, Complete and Aborted are never left, and
      Evaluating is never persisted. */
  lemma {:induction false} PhasesMoveForward(ws: seq<World>, acts: seq<Action>, i: nat, j: nat, e: Name)
    requires IsRun(ws, acts) && i <= j < |ws| && e in ws[i].exps
    ensures e in ws[j].exps
    ensures Rank(ws[i].exps[e].status.phase) <= Rank(ws[j].exps[e].status.phase)
    ensures Terminal(ws[i].exps[e].status.phase) ==> ws[j].exps[e].status.phase == ws[i].exps[e].status.phase
    ensures !ws[i].exps[e].status.phase.Evaluating? ==> !ws[j].exps[e].status.phase.Evaluating?
    decreases j - i
  {
    if i < j {
      assert CanStep(ws[i], acts[i]) && ws[i + 1] == Step(ws[i], acts[i]);
      StepMovesPhaseForward(ws[i], acts[i], e);
      PhasesMoveForward(ws, acts, i + 1, j, e);
    }
  }

  lemma ExperimentsAreConstant(ws: seq<World>, acts: seq<Action>, i: nat)
    requires IsRun(ws, acts) && i < |ws|
    ensures ws[i].exps.Keys == ws[0].exps.Keys
  {
    if i > 0 {
      ExperimentsAreConstant(ws, acts, i - 1);
      assert CanStep(ws[i - 1], acts[i - 1]) && ws[i] == Step(ws[i - 1], acts[i - 1]);
    }
  }

  lemma NeverEvaluating(ws: seq<World>, acts: seq<Action>, i: nat, e: Name)
    requires IsRun(ws, acts) && i < |ws| && e in ws[i].exps
    ensures !ws[i].exps[e].status.phase.Evaluating?
  {
    ExperimentsAreConstant(ws, acts, i);
    assert FreshExperiment(ws[0], e);
    PhasesMoveForward(ws, acts, 0, i, e);
  }

  /** A completed experiment kept its fault for the full TTL (or recovery timeout), was
      observed for a full recovery timeout without it, and ended after its post-check
      had begun. */
  lemma CompleteKeptItsTimes(ws: seq<World>, acts: seq<Action>, i: nat, e: Name)
    requires IsRun(ws, acts) && i < |ws| && e in ws[i].exps && ws[i].exps[e].status.phase.Complete?
    ensures var x := ws[i].exps[e]; var s := x.status;
      && s.injectionStartedAt.Some? && s.faultRevertedAt.Some? && s.postCheckStartedAt.Some? && s.endTime.Some?
      && s.faultRevertedAt.value - s.injectionStartedAt.value >= (if x.spec.ttl > 0 then x.spec.ttl else x.spec.Recovery())
      && s.postCheckStartedAt.value - s.faultRevertedAt.value >= x.spec.Recovery()
      && s.endTime.value >= s.postCheckStartedAt.value
      && e !in ws[i].active
  {
    RunKeepsInv(ws, acts, i);
    assert ExperimentInv(ws[i], e);
  }

  // --- the lease changes hands ---

  /** What ends the tenure of a lease holder. */
  predicate EndsTenure(w: World, a: Action, op: Operator, e: Name) {
    && a.By? && w.HeldBy(op, e)
    && ((a.who == e && a.eff == DeleteLease(op)) ||
        (a.eff.ReclaimLease? && a.eff.op == op && w.leases[op].Expired(w.now)))
  }

  /** The holder of a lease changes from e to someone else only if, somewhere in between,
      e released it or it was taken over at an instant at which it had expired. */
  lemma {:induction false} TenureEndsByReleaseOrExpiry(
    ws: seq<World>, acts: seq<Action>, i: nat, j: nat, op: Operator, e: Name)
    requires IsRun(ws, acts) && i <= j < |ws|
    requires ws[i].HeldBy(op, e) && !ws[j].HeldBy(op, e)
    ensures exists k :: i <= k < j && EndsTenure(ws[k], acts[k], op, e)
    decreases j - i
  {
    assert CanStep(ws[i], acts[i]) && ws[i + 1] == Step(ws[i], acts[i]);
    if ws[i + 1].HeldBy(op, e) {
      TenureEndsByReleaseOrExpiry(ws, acts, i + 1, j, op, e);
    } else {
      assert EndsTenure(ws[i], acts[i], op, e);
    }
  }

  // --- runs and rely conditions ---

  /** However many steps the others take, the worker of e finds what it relies on. */
  lemma {:induction false} OthersKeepRely(ws: seq<World>, acts: seq<Action>, i: nat, j: nat, e: Name)
    requires IsRun(ws, acts) && i <= j < |ws|
    requires forall k {:trigger acts[k]} | i <= k < j :: acts[k].By? ==> acts[k].who != e
    ensures Rely(e, ws[i], ws[j])
    decreases j - i
  {
    if i < j {
      RunKeepsInv(ws, acts, i);
      OthersStayWithinRely(e, ws[i], acts[i]);
      OthersKeepRely(ws, acts, i + 1, j, e);
      RelyIsTransitive(e, ws[i], ws[i + 1], ws[j]);
    } else {
      RelyIsReflexive(e, ws[i]);
    }
  }
}
