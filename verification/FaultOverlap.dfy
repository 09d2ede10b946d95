/** Runs in which a second experiment injects its fault on an operator whose first fault is still
    active, one for each case that `OverlapOnlyWithLingering` allows: the first experiment is deleted
    and its revert keeps failing; it is aborted and the controller stops before the revert; it is
    aborted and the revert fails. */
module FaultOverlap {
  import opened Wrappers
  import opened ExperimentWorld
  import opened ProtocolSafety

  const OP := "operator"
  const SPEC := Spec(OP, 0, 0)

  function Fresh(): Experiment {
    Experiment(SPEC, 0, 1, false, false, false, Status(Pending, 0, "", None, None, None, None, 0, None, false, false))
  }

  function Start(): World {
    World(0, 0, map[], map["a" := Fresh(), "b" := Fresh()], {}, {}, {}, map[], map[])
  }

  function Last(ws: seq<World>): World
    requires |ws| > 0
  {
    ws[|ws| - 1]
  }

  lemma Extend(ws: seq<World>, acts: seq<Action>, a: Action) returns (ws': seq<World>, acts': seq<Action>)
    requires IsRun(ws, acts) && CanStep(Last(ws), a) && Timely(Step(Last(ws), a))
    ensures IsRun(ws', acts') && ws' == ws + [Step(Last(ws), a)] && acts' == acts + [a]
  {
    ws', acts' := ws + [Step(Last(ws), a)], acts + [a];
  }

  /** w' differs from w only in the object of experiment e, its fault, and the lease,
      which is now held by e and fresh. */
  ghost predicate OnlyTouches(w: World, w': World, e: Name) {
    && w'.now == w.now && w'.exps.Keys == w.exps.Keys && e in w.exps
    && (forall f | f in w.exps && f != e :: w'.exps[f] == w.exps[f])
    && w.active <= w'.active <= w.active + {e} && w.injected <= w'.injected <= w.injected + {e}
    && OP in w'.leases && w'.leases == w.leases[OP := w'.leases[OP]]
    && w'.leases[OP] == Lease(w'.leases[OP].rv, Some(e), Some(900), Some(w.now), Some(w.now))
    && w'.exps[e].spec == SPEC && w'.exps[e].generation == 1 && !w'.exps[e].deleting && !w'.exps[e].gone
    && e in w'.began && w'.began[e] == w'.now
  }

  ghost predicate MayBegin(w: World, e: Name) {
    && e in w.exps && w.exps[e] == Fresh() && e !in w.injected && e !in w.active
    && (OP in w.leases ==> w.leases[OP].Expired(w.now))
    && (forall f | f in w.exps && f != e :: !w.exps[f].Guarded())
  }

  /** The reconciles of a fresh experiment e up to its pre-check, on a lease that is free or has expired. */
  lemma ReachesPreCheck(ws: seq<World>, acts: seq<Action>, e: Name) returns (ws': seq<World>, acts': seq<Action>)
    requires IsRun(ws, acts) && MayBegin(Last(ws), e)
    ensures IsRun(ws', acts')
    ensures var w, w' := Last(ws), Last(ws');
      && w'.now == w.now && w'.active == w.active && w'.injected == w.injected && w'.revertFailed == w.revertFailed
      && e in w'.exps && w'.exps == w.exps[e := w'.exps[e]]
      && w'.exps[e] == Fresh().(rv := w'.exps[e].rv, status := Fresh().status.(phase := SteadyStatePre, observedGeneration := 1, startTime := Some(w.now)))
      && OP in w'.leases && w'.leases == w.leases[OP := w'.leases[OP]]
      && w'.leases[OP] == Lease(w'.leases[OP].rv, Some(e), Some(900), Some(w.now), None)
      && e in w'.began && w'.began[e] == w'.now
  {
    var now := Last(ws).now;
    var acquire := if OP in Last(ws).leases then ReclaimLease(OP, 900, now) else CreateLease(OP, 900, now);
    var st := Fresh().status.(phase := SteadyStatePre, observedGeneration := 1, startTime := Some(now));
    ws', acts' := Extend(ws, acts, By(e, Begin));
    ws', acts' := Extend(ws', acts', By(e, acquire));
    ws', acts' := Extend(ws', acts', By(e, WriteStatus(ToPreCheck, st)));
  }

  /** The next reconcile, to the end of the pre-check. */
  lemma ReachesInjecting(ws: seq<World>, acts: seq<Action>, e: Name) returns (ws': seq<World>, acts': seq<Action>)
    requires IsRun(ws, acts) && MayBegin(Last(ws), e)
    ensures IsRun(ws', acts') && OnlyTouches(Last(ws), Last(ws'), e)
    ensures var w, w' := Last(ws), Last(ws');
      && w'.active == w.active && w'.injected == w.injected && w'.revertFailed == w.revertFailed && !w'.exps[e].finalizer
      && w'.exps[e].status == Fresh().status.(phase := Injecting, observedGeneration := 1, startTime := Some(w.now))
  {
    ws', acts' := ReachesPreCheck(ws, acts, e);
    var st := Last(ws').exps[e].status;
    ws', acts' := Extend(ws', acts', By(e, RenewLease(OP, Last(ws).now)));
    ws', acts' := Extend(ws', acts', By(e, WriteStatus(ToInjecting, st.(phase := Injecting))));
  }

  /** The whole way from its lease to its fault. */
  lemma Begins(ws: seq<World>, acts: seq<Action>, e: Name) returns (ws': seq<World>, acts': seq<Action>)
    requires IsRun(ws, acts) && MayBegin(Last(ws), e)
    ensures IsRun(ws', acts') && OnlyTouches(Last(ws), Last(ws'), e)
    ensures RunsWithFault(Last(ws'), e) && Last(ws').exps[e].finalizer && Last(ws').exps[e].Live()
    ensures Last(ws').exps[e].status.phase.Injecting? && Last(ws').revertFailed == Last(ws).revertFailed
  {
    ws', acts' := ReachesInjecting(ws, acts, e);
    ws', acts' := Injects(ws', acts', e);
  }

  ghost predicate PreChecked(w: World, e: Name) {
    && e in w.exps && OP in w.leases && w.leases[OP].holder == Some(e) && e !in w.injected
    && w.leases[OP] == Lease(w.leases[OP].rv, Some(e), Some(900), Some(w.now), Some(w.now))
    && w.exps[e] == Experiment(SPEC, w.exps[e].rv, 1, false, false, false, w.exps[e].status)
    && w.exps[e].status == Fresh().status.(phase := Injecting, observedGeneration := 1, startTime := Some(w.now))
    && e in w.began && w.began[e] == w.now
    && (forall f | f in w.exps && f != e :: !w.exps[f].Guarded())
  }

  lemma Injects(ws: seq<World>, acts: seq<Action>, e: Name) returns (ws': seq<World>, acts': seq<Action>)
    requires IsRun(ws, acts) && PreChecked(Last(ws), e)
    ensures IsRun(ws', acts') && OnlyTouches(Last(ws), Last(ws'), e)
    ensures RunsWithFault(Last(ws'), e) && Last(ws').exps[e].finalizer && Last(ws').exps[e].Live()
    ensures Last(ws').exps[e].status.phase.Injecting? && Last(ws').revertFailed == Last(ws).revertFailed
  {
    ws', acts' := PassesBarrier(ws, acts, e);
    ws', acts' := Extend(ws', acts', By(e, AddFinalizer(false)));
    ws', acts' := Extend(ws', acts', By(e, WriteStatus(Generation, Last(ws').exps[e].status)));
    ws', acts' := Extend(ws', acts', By(e, InjectFault(true)));
  }

  lemma PassesBarrier(ws: seq<World>, acts: seq<Action>, e: Name) returns (ws': seq<World>, acts': seq<Action>)
    requires IsRun(ws, acts) && PreChecked(Last(ws), e)
    ensures IsRun(ws', acts')
    ensures var w, w' := Last(ws), Last(ws');
      && OP in w'.leases && e in w'.exps
      && w' == w.(rev := w'.rev, exps := w.exps[e := w'.exps[e]], leases := w.leases[OP := w'.leases[OP]])
      && w'.leases[OP] == Lease(w'.leases[OP].rv, Some(e), Some(900), Some(w.now), Some(w.now))
      && w'.exps[e] == w.exps[e].(rv := w'.exps[e].rv, status := w.exps[e].status.(injectionStartedAt := Some(w.now)))
  {
    var now := Last(ws).now;
    ws', acts' := Extend(ws, acts, By(e, RenewLease(OP, now)));
    ws', acts' := Extend(ws', acts', By(e, WriteStatus(InjectionStart, Last(ws').exps[e].status.(injectionStartedAt := Some(now)))));
  }

  /** e has just injected its fault, and f is fresh. */
  ghost predicate HasBegun(w: World, e: Name, f: Name) {
    && RunsWithFault(w, e) && w.exps[e].finalizer && !w.exps[e].deleting && !w.exps[e].gone
    && w.exps[e].spec == SPEC && w.exps[e].status.phase.Injecting?
    && OP in w.leases && f != e && w.exps.Keys == {e, f}
    && w.leases[OP] == Lease(w.leases[OP].rv, Some(e), Some(900), Some(w.now), Some(w.now))
    && w.exps[f] == Fresh() && f !in w.injected && f !in w.active && e in w.began && w.began[e] == w.now
  }

  /** A running experiment e is deleted, its revert fails, and its lease runs out. */
  lemma LosesLease(ws: seq<World>, acts: seq<Action>, e: Name, f: Name) returns (ws': seq<World>, acts': seq<Action>)
    requires IsRun(ws, acts) && HasBegun(Last(ws), e, f)
    ensures IsRun(ws', acts') && MayBegin(Last(ws'), f) && RunsWithFault(Last(ws'), e)
    ensures Last(ws').exps[e].spec == SPEC && Last(ws').exps[e].deleting
  {
    ws', acts' := Extend(ws, acts, Elsewhere(UserDelete(e)));
    ws', acts' := Extend(ws', acts', By(e, RevertFault(false, false)));
    ws', acts' := Extend(ws', acts', Elsewhere(Tick(900 * SECOND + 1)));
  }

  lemma BeginsFirst() returns (ws: seq<World>, acts: seq<Action>)
    ensures IsRun(ws, acts) && HasBegun(Last(ws), "a", "b") && Last(ws).revertFailed == {}
  {
    ws, acts := [Start()], [];
    assert FreshExperiment(Start(), "a") && FreshExperiment(Start(), "b");
    ws, acts := Begins(ws, acts, "a");
  }

  /** b runs with its fault and has the lease; the fault of a is active on the same operator. */
  ghost predicate Overlaps(w: World) {
    && "a" in w.active && "a" in w.exps && RunsWithFault(w, "b") && w.exps["b"].Live()
    && w.exps["a"].spec.operator == w.exps["b"].spec.operator
  }

  /** Two running experiments with faults on one operator at the same time. */
  lemma DeletionAllowsOverlap() returns (ws: seq<World>, acts: seq<Action>)
    ensures IsRun(ws, acts)
    ensures var w := Last(ws);
      Overlaps(w) && RunsWithFault(w, "a") && w.exps["a"].deleting
  {
    ws, acts := BeginsFirst();
    ws, acts := LosesLease(ws, acts, "a", "b");
    ws, acts := Begins(ws, acts, "b");
  }

  /** An abort that stops after its crash barrier: the revert has not been tried, and the lease runs out. */
  lemma InterruptedAbortAllowsOverlap() returns (ws: seq<World>, acts: seq<Action>)
    ensures IsRun(ws, acts)
    ensures var w := Last(ws);
      && Overlaps(w) && w.exps["a"].status.phase.Aborted? && !w.exps["a"].deleting
      && w.exps["a"].finalizer && "a" !in w.revertFailed
  {
    ws, acts := BeginsFirst();
    ws, acts := AbortBegins(ws, acts);
    ws, acts := RunsOut(ws, acts);
    ws, acts := Begins(ws, acts, "b");
  }

  /** It need not even fail: a deletion that nobody gets to in time is enough. */
  lemma UntriedDeletionAllowsOverlap() returns (ws: seq<World>, acts: seq<Action>)
    ensures IsRun(ws, acts)
    ensures var w := Last(ws);
      Overlaps(w) && RunsWithFault(w, "a") && w.exps["a"].deleting && w.revertFailed == {}
  {
    ws, acts := BeginsFirst();
    ws, acts := IsLeftAlone(ws, acts);
    ws, acts := Begins(ws, acts, "b");
  }

  lemma IsLeftAlone(ws: seq<World>, acts: seq<Action>) returns (ws': seq<World>, acts': seq<Action>)
    requires IsRun(ws, acts) && HasBegun(Last(ws), "a", "b")
    ensures IsRun(ws', acts') && MayBegin(Last(ws'), "b") && RunsWithFault(Last(ws'), "a")
    ensures Last(ws').exps["a"].spec == SPEC && Last(ws').exps["a"].deleting && Last(ws').revertFailed == Last(ws).revertFailed
  {
    ws', acts' := Extend(ws, acts, Elsewhere(UserDelete("a")));
    ws', acts' := Extend(ws', acts', Elsewhere(Tick(900 * SECOND + 1)));
  }

  /** The phase of a is stored as Aborted, with nothing done about its fault yet. */
  ghost predicate Aborting(w: World) {
    && w.exps.Keys == {"a", "b"} && "a" in w.active && w.HeldBy(OP, "a")
    && w.exps["a"].spec == SPEC && w.exps["a"].finalizer && !w.exps["a"].deleting && !w.exps["a"].gone
    && w.exps["a"].status.phase.Aborted?
    && w.leases[OP] == Lease(w.leases[OP].rv, Some("a"), Some(900), Some(w.now), Some(w.now))
    && w.exps["b"] == Fresh() && "b" !in w.injected && "b" !in w.active
    && "a" in w.began && w.began["a"] == w.now
  }

  lemma AbortBegins(ws: seq<World>, acts: seq<Action>) returns (ws': seq<World>, acts': seq<Action>)
    requires IsRun(ws, acts) && HasBegun(Last(ws), "a", "b")
    ensures IsRun(ws', acts') && Aborting(Last(ws')) && Last(ws').revertFailed == Last(ws).revertFailed
  {
    var st := Last(ws).exps["a"].status.(phase := Aborted, injectionStartedAt := None);
    ws', acts' := Extend(ws, acts, By("a", WriteStatus(AbortBarrier, st)));
  }

  lemma RunsOut(ws: seq<World>, acts: seq<Action>) returns (ws': seq<World>, acts': seq<Action>)
    requires IsRun(ws, acts) && Aborting(Last(ws))
    ensures IsRun(ws', acts') && MayBegin(Last(ws'), "b") && Last(ws').revertFailed == Last(ws).revertFailed
    ensures "a" in Last(ws').exps && Last(ws').exps["a"] == Last(ws).exps["a"] && "a" in Last(ws').active
  {
    ws', acts' := Extend(ws, acts, Elsewhere(Tick(900 * SECOND + 1)));
  }

  /** An abort whose revert fails stores its terminal status, releases the lease, and loses its finalizer
      in the cleanup, whose revert fails again: nothing has to crash or to expire. */
  lemma FailedAbortAllowsOverlap() returns (ws: seq<World>, acts: seq<Action>)
    ensures IsRun(ws, acts)
    ensures var w := Last(ws);
      && Overlaps(w) && w.exps["a"].status.phase.Aborted? && !w.exps["a"].deleting
      && !w.exps["a"].finalizer && "a" in w.revertFailed
  {
    ws, acts := BeginsFirst();
    ws, acts := AbortBegins(ws, acts);
    ws, acts := AbortFails(ws, acts);
    ws, acts := CleanupFails(ws, acts);
    ws, acts := Begins(ws, acts, "b");
  }

  /** The lease is free, and the fault of a, though aborted, is active after a failed revert. */
  ghost predicate AbortFailed(w: World) {
    && MayBegin(w, "b") && w.exps.Keys == {"a", "b"} && "a" in w.active && "a" in w.revertFailed && OP !in w.leases
    && w.exps["a"].spec == SPEC && !w.exps["a"].deleting && !w.exps["a"].gone && w.exps["a"].status.phase.Aborted?
  }

  lemma AbortFails(ws: seq<World>, acts: seq<Action>) returns (ws': seq<World>, acts': seq<Action>)
    requires IsRun(ws, acts) && Aborting(Last(ws))
    ensures IsRun(ws', acts') && AbortFailed(Last(ws')) && Last(ws').exps["a"].finalizer
  {
    var st := Last(ws).exps["a"].status;
    var end := st.(endTime := Some(Last(ws).now), cleanupError := true, completeCondition := true);
    ws', acts' := Extend(ws, acts, By("a", RevertFault(false, false)));
    ws', acts' := Extend(ws', acts', By("a", WriteStatus(AbortFinal, end)));
    ws', acts' := Extend(ws', acts', By("a", DeleteLease(OP)));
  }

  lemma CleanupFails(ws: seq<World>, acts: seq<Action>) returns (ws': seq<World>, acts': seq<Action>)
    requires IsRun(ws, acts) && AbortFailed(Last(ws)) && Last(ws).exps["a"].finalizer
    ensures IsRun(ws', acts') && AbortFailed(Last(ws')) && !Last(ws').exps["a"].finalizer
  {
    ws', acts' := Extend(ws, acts, By("a", RevertFault(false, false)));
    ws', acts' := Extend(ws', acts', By("a", RemoveFinalizer(false)));
  }
}
