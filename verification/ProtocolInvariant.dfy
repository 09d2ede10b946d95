/** The invariant of the experiment protocol is kept by every step, and the steps of
    everyone else stay within what a worker relies on. */
module ProtocolInvariant {
  import opened Wrappers
  import opened ExperimentWorld

  lemma LiveLeaseIsNotExpired(w: World, e: Name)
    requires Inv(w) && Timely(w) && e in w.exps && w.exps[e].Guarded()
    requires w.HeldBy(w.exps[e].spec.operator, e)
    ensures !w.leases[w.exps[e].spec.operator].Expired(w.now)
  {
    assert RenewedInTime(w, e);
    assert LeaseInv(w, w.exps[e].spec.operator);
  }

  lemma StatusWriteKeepsExperiment(w: World, e: Name, kind: Write, st: Status)
    requires Inv(w) && Enabled(w, e, WriteStatus(kind, st))
    ensures ExperimentInv(Apply(w, e, WriteStatus(kind, st)), e)
  {
    assert ExperimentInv(w, e);
  }

  lemma StatusWriteKeepsInv(w: World, e: Name, kind: Write, st: Status)
    requires Inv(w) && Enabled(w, e, WriteStatus(kind, st))
    ensures Inv(Apply(w, e, WriteStatus(kind, st)))
  {
    var w' := Apply(w, e, WriteStatus(kind, st));
    StatusWriteKeepsExperiment(w, e, kind, st);
    forall f | f in w'.exps ensures ExperimentInv(w', f) {
      if f != e { assert ExperimentInv(w, f); }
    }
    forall op | op in w'.leases ensures LeaseInv(w', op) { assert LeaseInv(w, op); }
  }

  lemma ObjectWriteKeepsInv(w: World, e: Name, eff: Effect)
    requires Inv(w) && Enabled(w, e, eff)
    requires eff.AddFinalizer? || eff.RemoveFinalizer? || eff.InjectFault? || eff.RevertFault?
    ensures Inv(Apply(w, e, eff))
  {
    var w' := Apply(w, e, eff);
    forall f | f in w'.exps ensures ExperimentInv(w', f) { assert ExperimentInv(w, f); }
    forall op | op in w'.leases ensures LeaseInv(w', op) { assert LeaseInv(w, op); }
  }

  lemma LeaseWriteKeepsInv(w: World, a: Name, eff: Effect)
    requires Inv(w) && Timely(w) && Enabled(w, a, eff)
    requires eff.CreateLease? || eff.ReclaimLease? || eff.RenewLease? || eff.DeleteLease?
    ensures Inv(Apply(w, a, eff))
  {
    var w' := Apply(w, a, eff);
    forall f | f in w'.exps ensures ExperimentInv(w', f) {
      assert ExperimentInv(w, f);
      if w.exps[f].Live() { LiveLeaseIsNotExpired(w, f); }
    }
    forall op | op in w'.leases ensures LeaseInv(w', op) {
      if op in w.leases { assert LeaseInv(w, op); }
    }
  }

  lemma BeginKeepsInv(w: World, e: Name)
    requires Inv(w)
    ensures Inv(Apply(w, e, Begin))
  {
    var w' := Apply(w, e, Begin);
    forall f | f in w'.exps ensures ExperimentInv(w', f) { assert ExperimentInv(w, f); }
    forall op | op in w'.leases ensures LeaseInv(w', op) { assert LeaseInv(w, op); }
  }

  lemma OutsideKeepsInv(w: World, o: Outside)
    requires Inv(w) && Allowed(w, o)
    ensures Inv(Happen(w, o))
  {
    var w' := Happen(w, o);
    forall f | f in w'.exps ensures ExperimentInv(w', f) { assert ExperimentInv(w, f); }
    forall op | op in w'.leases ensures LeaseInv(w', op) { assert LeaseInv(w, op); }
  }

  /** Every step by anyone keeps the invariant, as long as leases are renewed in time. */
  lemma StepKeepsInv(w: World, a: Action)
    requires Inv(w) && Timely(w) && CanStep(w, a)
    ensures Inv(Step(w, a))
  {
    match a
    case Elsewhere(o) => OutsideKeepsInv(w, o);
    case By(e, eff) =>
      match eff
      case Begin => BeginKeepsInv(w, e);
      case WriteStatus(kind, st) => StatusWriteKeepsInv(w, e, kind, st);
      case AddFinalizer(_) => ObjectWriteKeepsInv(w, e, eff);
      case RemoveFinalizer(_) => ObjectWriteKeepsInv(w, e, eff);
      case InjectFault(_) => ObjectWriteKeepsInv(w, e, eff);
      case RevertFault(_, _) => ObjectWriteKeepsInv(w, e, eff);
      case CreateLease(_, _, _) => LeaseWriteKeepsInv(w, e, eff);
      case ReclaimLease(_, _, _) => LeaseWriteKeepsInv(w, e, eff);
      case RenewLease(_, _) => LeaseWriteKeepsInv(w, e, eff);
      case DeleteLease(_) => LeaseWriteKeepsInv(w, e, eff);
  }

  /** The guarantee of everyone else implies the rely condition of experiment e. */
  lemma OthersStayWithinRely(e: Name, w: World, a: Action)
    requires Inv(w) && Timely(w) && CanStep(w, a)
    requires a.By? ==> a.who != e
    ensures Rely(e, w, Step(w, a))
  {
    match a
    case Elsewhere(o) => OutsideStaysWithinRely(e, w, o);
    case By(f, eff) =>
      if eff.CreateLease? || eff.ReclaimLease? || eff.RenewLease? || eff.DeleteLease? {
        LeaseWriteStaysWithinRely(e, w, f, eff);
      } else {
        ObjectWriteStaysWithinRely(e, w, f, eff);
      }
  }

  lemma OutsideStaysWithinRely(e: Name, w: World, o: Outside)
    requires Inv(w) && Allowed(w, o)
    ensures Rely(e, w, Happen(w, o))
  {
    if e in w.exps { assert ExperimentInv(w, e); }
  }

  lemma ObjectWriteStaysWithinRely(e: Name, w: World, f: Name, eff: Effect)
    requires Inv(w) && Enabled(w, f, eff) && e != f
    requires !(eff.CreateLease? || eff.ReclaimLease? || eff.RenewLease? || eff.DeleteLease?)
    ensures Rely(e, w, Apply(w, f, eff))
  {
    if e in w.exps { assert ExperimentInv(w, e); }
  }

  lemma LeaseWriteStaysWithinRely(e: Name, w: World, f: Name, eff: Effect)
    requires Inv(w) && Timely(w) && Enabled(w, f, eff) && e != f
    requires eff.CreateLease? || eff.ReclaimLease? || eff.RenewLease? || eff.DeleteLease?
    ensures Rely(e, w, Apply(w, f, eff))
  {
    if e in w.exps {
      assert ExperimentInv(w, e);
      if w.exps[e].Guarded() && w.HeldBy(w.exps[e].spec.operator, e) {
        LiveLeaseIsNotExpired(w, e);
      }
    }
  }

  lemma RelyIsReflexive(e: Name, w: World)
    ensures Rely(e, w, w)
  {
  }

  lemma RelyIsTransitive(e: Name, w0: World, w1: World, w2: World)
    requires Inv(w0) && Rely(e, w0, w1) && Rely(e, w1, w2)
    ensures Rely(e, w0, w2)
  {
    if e in w0.exps {
      assert ExperimentInv(w0, e);
    }
  }
}
