/** When a run of the executor may start and where, what it executes first, and what it leaves. */
module RunOutcome {
  import opened Executor
  import opened ResumeSafety
  import opened StepGraph
  import opened Wrappers

  /** Without a step to resume at, no failure may be on record.  With one, a step of that name is needed,
      and, unless forced, a state file with no failure at another step. */
  ghost predicate MayStart(steps: seq<Step>, file: StateFile, run: Invocation) {
    var failed := Load(file).failedStep;
    if run.resumeFrom == "" then failed == ""
    else
      && (exists k: nat :: Named(steps, k, run.resumeFrom))
      && (run.force || (!file.Missing? && (failed == "" || failed == run.resumeFrom)))
  }

  /** Why a run is refused. */
  ghost predicate IsReason(steps: seq<Step>, file: StateFile, run: Invocation, reason: Start) {
    var failed := Load(file).failedStep;
    match reason
    case From(_) => false
    case ResumeNeeded(step) => run.resumeFrom == "" && step == failed != ""
    case StepNotFound => run.resumeFrom != "" && !exists k: nat :: Named(steps, k, run.resumeFrom)
    case NoStateFile => run.resumeFrom != "" && file.Missing? && !run.force
    case FailedElsewhere(step) => run.resumeFrom != "" && !run.force && step == failed && failed != "" && failed != run.resumeFrom
  }

  /** Step k is the first from i on that is not on record. */
  ghost predicate IsFirstOpen(steps: seq<Step>, file: StateFile, i: nat, k: nat) {
    && i <= k < |steps| && steps[k].name !in Load(file).completed
    && forall m | i <= m < k :: steps[m].name in Load(file).completed
  }

  /** Where a run starts: at the first step of the name, or at the beginning. */
  ghost predicate StartsAt(steps: seq<Step>, run: Invocation, i: nat) {
    if run.resumeFrom == "" then i == 0
    else Named(steps, i, run.resumeFrom) && forall m | 0 <= m < i :: steps[m].name != run.resumeFrom
  }

  lemma StartIff(steps: seq<Step>, file: StateFile, run: Invocation)
    ensures var start := Begin(steps, file, run.resumeFrom, run.force);
      && (start.From? <==> MayStart(steps, file, run))
      && (start.From? ==> StartsAt(steps, run, start.index))
      && (!start.From? ==> IsReason(steps, file, run, start))
  {
    var i := FirstNamed(steps, run.resumeFrom);
    if i < |steps| { assert Named(steps, i, run.resumeFrom); }
  }

  /** A run that may not start is refused for the right reason, executes nothing, and leaves the state file
      as it was.  One that may executes something if and only if the first step from its start on that is
      not on record has a registered type, and that step first. */
  lemma RunExecutesIff(steps: seq<Step>, types: set<string>, file: StateFile, run: Invocation)
    ensures var r := RunOnce(steps, types, file, run);
      && (!MayStart(steps, file, run) ==>
            r.log == [] && r.file == file && r.result.Refused? && IsReason(steps, file, run, r.result.reason))
      && (MayStart(steps, file, run) ==> !r.result.Refused?)
      && (r.log != [] <==> MayStart(steps, file, run) && exists i: nat, k: nat :: OpensWith(steps, types, file, run, i, k))
      && (forall i: nat, k: nat {:trigger OpensWith(steps, types, file, run, i, k)} |
            MayStart(steps, file, run) && OpensWith(steps, types, file, run, i, k) :: r.log != [] && r.log[0].name == steps[k].name)
  {
    StartIff(steps, file, run);
    var start := Begin(steps, file, run.resumeFrom, run.force);
    if start.From? {
      NotRefused(steps, types, start.index, Load(file), file, run.attempt);
      forall i: nat, k: nat | OpensWith(steps, types, file, run, i, k)
        ensures RunOnce(steps, types, file, run).log != [] && RunOnce(steps, types, file, run).log[0].name == steps[k].name
      {
        SameStart(steps, run, i, start.index);
        OpensFirst(steps, types, file, start.index, k, run.attempt);
      }
      if RunOnce(steps, types, file, run).log != [] {
        var k := FirstExecuted(steps, types, start.index, Load(file), file, run.attempt);
        TypeOfFirst(steps, types, start.index, Load(file), file, run.attempt, k);
        assert OpensWith(steps, types, file, run, start.index, k);
      }
    }
  }

  ghost predicate OpensWith(steps: seq<Step>, types: set<string>, file: StateFile, run: Invocation, i: nat, k: nat) {
    StartsAt(steps, run, i) && IsFirstOpen(steps, file, i, k) && steps[k].stepType in types
  }

  lemma SameStart(steps: seq<Step>, run: Invocation, i: nat, j: nat)
    requires StartsAt(steps, run, i) && StartsAt(steps, run, j)
    ensures i == j
  {
  }

  lemma {:induction false} NotRefused(steps: seq<Step>, types: set<string>, i: nat, state: PlaybookState,
                                      file: StateFile, attempt: string -> Attempt)
    requires i <= |steps|
    ensures !Continue(steps, types, i, state, file, attempt).result.Refused?
    decreases |steps| - i
  {
    if i < |steps| && steps[i].name in state.completed {
      NotRefused(steps, types, i + 1, state, file, attempt);
    } else if i < |steps| && steps[i].stepType in types {
      var after := AfterAttempt(steps[i], attempt(steps[i].name), state, file);
      if after.stop.None? { NotRefused(steps, types, i + 1, after.state, after.file, attempt); }
    }
  }

  lemma {:induction false} OpensFirst(steps: seq<Step>, types: set<string>, file: StateFile, i: nat, k: nat, attempt: string -> Attempt)
    requires IsFirstOpen(steps, file, i, k) && steps[k].stepType in types
    ensures var r := Continue(steps, types, i, Load(file), file, attempt); r.log != [] && r.log[0].name == steps[k].name
    decreases k - i
  {
    if i < k { OpensFirst(steps, types, file, i + 1, k, attempt); }
  }

  lemma {:induction false} TypeOfFirst(steps: seq<Step>, types: set<string>, i: nat, state: PlaybookState,
                                       file: StateFile, attempt: string -> Attempt, k: nat)
    requires i <= k < |steps| && steps[k].name !in state.completed && (forall m | i <= m < k :: steps[m].name in state.completed)
    requires Continue(steps, types, i, state, file, attempt).log != []
    ensures steps[k].stepType in types
    decreases k - i
  {
    if i < k { TypeOfFirst(steps, types, i + 1, state, file, attempt, k); }
  }

  /** So an unforced resume without a state file executes nothing and leaves none. */
  lemma NoFileNoResume(steps: seq<Step>, types: set<string>, run: Invocation)
    requires run.resumeFrom != "" && !run.force
    ensures var r := RunOnce(steps, types, Missing, run); r.result.Refused? && r.log == [] && r.file.Missing?
  {
    RunExecutesIff(steps, types, Missing, run);
  }

  // --- what a run leaves ---

  function StatusOf(outcome: Outcome): string {
    if outcome.Skipped? then "skipped" else "completed"
  }

  /** A non-synthetic step of the playbook passed or was skipped. */
  ghost predicate Finished(steps: seq<Step>, log: seq<Event>, e: Event) {
    e in log && e.outcome.Finishes() && exists k: nat :: Named(steps, k, e.name) && !steps[k].synthetic
  }

  ghost predicate SomeFinished(steps: seq<Step>, log: seq<Event>) {
    exists e :: Finished(steps, log, e)
  }

  /** What a report says of the state file it leaves. */
  ghost predicate Leaves(steps: seq<Step>, types: set<string>, before: PlaybookState, r: Report) {
    var left := Load(r.file);
    && (r.result.Success? ==> r.file.Missing?)
    && (r.result.StepFailed? ==>
          && r.log != [] && var last := r.log[|r.log| - 1];
             last.outcome.Failed? && last.name == r.result.step == left.failedStep && left.failedError == last.outcome.error)
    && (r.result.Interrupted? ==> r.log != [] && r.log[|r.log| - 1].outcome.Killed? && r.log[|r.log| - 1].name == r.result.step)
    && (r.result.UnknownType? ==> exists k: nat :: Named(steps, k, r.result.step) && steps[k].stepType !in types)
    && (r.result.Interrupted? || r.result.UnknownType? ==>
          left.failedStep == if SomeFinished(steps, r.log) then "" else before.failedStep)
    && (!r.result.Success? ==> Keeps(steps, before, r.log, left))
  }

  /** Entries from before stay, unless the step is executed; each step that finished has its status. */
  ghost predicate Keeps(steps: seq<Step>, before: PlaybookState, log: seq<Event>, left: PlaybookState) {
    && (forall n | n in before.completed && (forall e | e in log :: e.name != n) :: n in left.completed && left.completed[n] == before.completed[n])
    && (forall e {:trigger Finished(steps, log, e)} | Finished(steps, log, e) :: e.name in left.completed && left.completed[e.name] == StatusOf(e.outcome))
  }

  lemma StopLeaves(steps: seq<Step>, types: set<string>, i: nat, state: PlaybookState, file: StateFile, a: Attempt)
    requires DistinctSteps(steps) && i < |steps| && state == Load(file) && a.saves && !a.outcome.Finishes()
    ensures var after, e := AfterAttempt(steps[i], a, state, file), Event(steps[i].name, a.outcome, a.partial);
      after.stop.Some? && Leaves(steps, types, state, Report(after.file, [e], after.stop.value))
  {
    var e := Event(steps[i].name, a.outcome, a.partial);
    assert forall x | x in [e] :: x == e;
  }

  lemma PassLeaves(steps: seq<Step>, types: set<string>, i: nat, state: PlaybookState, file: StateFile, a: Attempt, rest: Report)
    requires DistinctSteps(steps) && i < |steps| && state == Load(file) && a.saves && a.outcome.Finishes()
    requires var after := AfterAttempt(steps[i], a, state, file);
      Leaves(steps, types, after.state, rest) && forall e | e in rest.log :: e.name != steps[i].name
    ensures Leaves(steps, types, state, After([Event(steps[i].name, a.outcome, a.partial)], rest))
  {
    var e, after := Event(steps[i].name, a.outcome, a.partial), AfterAttempt(steps[i], a, state, file);
    var log, left := [e] + rest.log, Load(rest.file);
    assert log[0] == e && (forall x | x in rest.log :: x in log) && (forall x | x in log :: x == e || x in rest.log);
    assert Named(steps, i, e.name);
    FinishedIff(steps, e, rest.log, i);
    if rest.log != [] { assert log[|log| - 1] == rest.log[|rest.log| - 1]; }
    if !rest.result.Success? {
      forall n | n in state.completed && (forall x | x in log :: x.name != n)
        ensures n in left.completed && left.completed[n] == state.completed[n]
      {
        assert n in after.state.completed;
      }
      forall x | Finished(steps, log, x) ensures x.name in left.completed && left.completed[x.name] == StatusOf(x.outcome) {
        if x in rest.log { assert Finished(steps, rest.log, x); } else { assert e.name in after.state.completed; }
      }
    }
  }

  lemma FinishedIff(steps: seq<Step>, e: Event, rest: seq<Event>, i: nat)
    requires DistinctSteps(steps) && Named(steps, i, e.name) && e.outcome.Finishes()
    ensures SomeFinished(steps, [e] + rest) <==> !steps[i].synthetic || SomeFinished(steps, rest)
    ensures forall x :: Finished(steps, [e] + rest, x) <==> (x == e && !steps[i].synthetic) || Finished(steps, rest, x)
  {
    forall x ensures Finished(steps, [e] + rest, x) <==> (x == e && !steps[i].synthetic) || Finished(steps, rest, x) {
      assert x in [e] + rest <==> x == e || x in rest;
      if x == e && (exists k: nat :: Named(steps, k, e.name) && !steps[k].synthetic) {
        var k: nat :| Named(steps, k, e.name) && !steps[k].synthetic;
        assert k == i;
      }
    }
    if !steps[i].synthetic { assert Finished(steps, [e] + rest, e); }
    if x :| Finished(steps, rest, x) { assert Finished(steps, [e] + rest, x); }
  }

  /** If saves work, success leaves no state file; a failure is on record with its error; a run that was
      interrupted, or met an unknown type, leaves a failure on record only if there was one and no
      non-synthetic step has finished since; every such step is on record with its status, and nothing
      else is lost. */
  lemma {:induction false} ContinueLeaves(steps: seq<Step>, types: set<string>, i: nat, state: PlaybookState,
                                          file: StateFile, attempt: string -> Attempt)
    requires DistinctSteps(steps) && i <= |steps| && state == Load(file) && Saves(attempt)
    ensures Leaves(steps, types, state, Continue(steps, types, i, state, file, attempt))
    ensures forall e | e in Continue(steps, types, i, state, file, attempt).log :: exists k: nat :: i <= k && Named(steps, k, e.name)
    decreases |steps| - i
  {
    if i == |steps| {
    } else if steps[i].name in state.completed {
      ContinueLeaves(steps, types, i + 1, state, file, attempt);
    } else if steps[i].stepType !in types {
      assert Named(steps, i, steps[i].name);
    } else {
      var a := attempt(steps[i].name);
      var e, after := Event(steps[i].name, a.outcome, a.partial), AfterAttempt(steps[i], a, state, file);
      assert Named(steps, i, steps[i].name);
      if after.stop.Some? {
        StopLeaves(steps, types, i, state, file, a);
        assert After([e], Report(after.file, [], after.stop.value)) == Report(after.file, [e], after.stop.value);
      } else {
        ContinueLeaves(steps, types, i + 1, after.state, after.file, attempt);
        var rest := Continue(steps, types, i + 1, after.state, after.file, attempt);
        LaterNames(steps, i, rest.log);
        PassLeaves(steps, types, i, state, file, a, rest);
      }
    }
  }

  lemma LaterNames(steps: seq<Step>, i: nat, log: seq<Event>)
    requires DistinctSteps(steps) && i < |steps|
    requires forall e | e in log :: exists k: nat :: i + 1 <= k && Named(steps, k, e.name)
    ensures forall e | e in log :: e.name != steps[i].name
  {
  }

  lemma RunLeaves(steps: seq<Step>, types: set<string>, file: StateFile, run: Invocation)
    requires DistinctSteps(steps) && Saves(run.attempt) && MayStart(steps, file, run)
    ensures Leaves(steps, types, Load(file), RunOnce(steps, types, file, run))
  {
    StartIff(steps, file, run);
    ContinueLeaves(steps, types, Begin(steps, file, run.resumeFrom, run.force).index, Load(file), file, run.attempt);
  }
}
