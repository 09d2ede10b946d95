/** The resumable playbook executor: one run over a state file that outlives it. */
module Executor {
  import opened StepGraph
  import opened Wrappers

  datatype Outcome = Passed | Skipped | Failed(error: string) | Killed {
    predicate Finishes() {
      Passed? || Skipped?
    }
  }

  /** What executing a step does.  partial: it enters itself in CompletedSteps on the way, as an
      OLM step does for each hop and each rollback.  saves: writing the state file works meanwhile. */
  datatype Attempt = Attempt(outcome: Outcome, partial: bool, saves: bool)

  /** completed maps the name of a step to its status. */
  datatype PlaybookState = PlaybookState(completed: map<string, string>, failedStep: string, failedError: string)

  datatype StateFile = Missing | Corrupt | Saved(state: PlaybookState)

  /** An attempt that was made; early: it entered itself in CompletedSteps on the way. */
  datatype Event = Event(name: string, outcome: Outcome, early: bool) {
    predicate EarlyOnly() {
      early && !outcome.Finishes()
    }
  }

  /** The options of one run, and how each step would fare in it. */
  datatype Invocation = Invocation(resumeFrom: string, force: bool, attempt: string -> Attempt)

  datatype Start =
    | From(index: nat)
    | StepNotFound
    | NoStateFile
    | FailedElsewhere(step: string)
    | ResumeNeeded(step: string)

  datatype Result =
    | Success
    | Refused(reason: Start)
    | UnknownType(step: string)
    | StepFailed(step: string)
    | Interrupted(step: string)

  /** What a run leaves: the state file, the steps it executed, its result. */
  datatype Report = Report(file: StateFile, log: seq<Event>, result: Result)

  function Load(file: StateFile): PlaybookState {
    if file.Saved? then file.state else PlaybookState(map[], "", "")
  }

  function Save(file: StateFile, state: PlaybookState, works: bool): StateFile {
    if works then Saved(state) else file
  }

  /** Where a run starts, if it may. */
  function Begin(steps: seq<Step>, file: StateFile, resumeFrom: string, force: bool): (r: Start)
    ensures r.From? ==> r.index <= |steps|
    ensures r.From? && resumeFrom != "" ==> r.index < |steps| && steps[r.index].name == resumeFrom
  {
    var failed := Load(file).failedStep;
    if resumeFrom == "" then
      if failed == "" then From(0) else ResumeNeeded(failed)
    else
      var i := FirstNamed(steps, resumeFrom);
      if i == |steps| then StepNotFound
      else if file.Missing? && !force then NoStateFile
      else if failed != "" && failed != resumeFrom && !force then FailedElsewhere(failed)
      else From(i)
  }

  function FirstNamed(steps: seq<Step>, name: string): (i: nat)
    ensures i <= |steps|
    ensures i < |steps| ==> steps[i].name == name
    ensures forall k | 0 <= k < i :: steps[k].name != name
  {
    if steps == [] || steps[0].name == name then 0 else 1 + FirstNamed(steps[1..], name)
  }

  /** The state in memory and on file after an attempt at a step, and the result if it ends the run. */
  datatype Attempted = Attempted(state: PlaybookState, file: StateFile, stop: Option<Result>)

  function AfterAttempt(step: Step, a: Attempt, state: PlaybookState, file: StateFile): Attempted {
    var during := if a.partial then Enter(state, step.name, "") else state;
    var file' := if a.partial then Save(file, during, a.saves) else file;
    if a.outcome.Killed? then Attempted(during, file', Some(Interrupted(step.name)))
    else if a.outcome.Failed? then
      var failed := Fail(during, step.name, a.outcome.error);
      Attempted(failed, Save(file', failed, a.saves), Some(StepFailed(step.name)))
    else if step.synthetic then Attempted(during, file', None)
    else
      var done := Complete(during, step.name, a.outcome);
      Attempted(done, Save(file', done, a.saves), None)
  }

  /** The rest of a run, from step i on. */
  function Continue(steps: seq<Step>, types: set<string>, i: nat, state: PlaybookState, file: StateFile,
                    attempt: string -> Attempt): Report
    requires i <= |steps|
    decreases |steps| - i
  {
    if i == |steps| then Report(Missing, [], Success)
    else if steps[i].name in state.completed then Continue(steps, types, i + 1, state, file, attempt)
    else if steps[i].stepType !in types then Report(file, [], UnknownType(steps[i].name))
    else
      var a := attempt(steps[i].name);
      var after := AfterAttempt(steps[i], a, state, file);
      var rest := if after.stop.Some? then Report(after.file, [], after.stop.value)
                  else Continue(steps, types, i + 1, after.state, after.file, attempt);
      After([Event(steps[i].name, a.outcome, a.partial)], rest)
  }

  function Enter(state: PlaybookState, name: string, status: string): PlaybookState {
    state.(completed := state.completed[name := status])
  }

  function Fail(state: PlaybookState, name: string, error: string): PlaybookState {
    state.(failedStep := name, failedError := error)
  }

  function Complete(state: PlaybookState, name: string, outcome: Outcome): PlaybookState {
    Enter(state, name, if outcome.Skipped? then "skipped" else "completed").(failedStep := "", failedError := "")
  }

  function RunOnce(steps: seq<Step>, types: set<string>, file: StateFile, run: Invocation): Report {
    var start := Begin(steps, file, run.resumeFrom, run.force);
    if start.From? then Continue(steps, types, start.index, Load(file), file, run.attempt)
    else Report(file, [], Refused(start))
  }

  function After(log: seq<Event>, r: Report): Report {
    r.(log := log + r.log)
  }

  lemma AfterIsAssociative(a: seq<Event>, b: seq<Event>, r: Report)
    ensures After(a, After(b, r)) == After(a + b, r)
  {
    assert a + (b + r.log) == a + b + r.log;
  }

  class PlaybookExecutor {
    const steps: seq<Step>
    const types: set<string>       // the registered step types
    var file: StateFile
    ghost var log: seq<Event>

    constructor (steps: seq<Step>, types: set<string>, file: StateFile)
      ensures this.steps == steps && this.types == types && this.file == file && log == []
    {
      this.steps, this.types, this.file, this.log := steps, types, file, [];
    }

    method ResolveResumeIndex(state: PlaybookState, resumeFrom: string, force: bool) returns (start: Start)
      requires state == Load(file) && resumeFrom != ""
      ensures start == Begin(steps, file, resumeFrom, force)
    {
      var i := 0;
      while i < |steps| && steps[i].name != resumeFrom
        invariant i <= FirstNamed(steps, resumeFrom)
      {
        i := i + 1;
      }
      if i == |steps| {
        return StepNotFound;
      }
      if file.Missing? && !force {
        return NoStateFile;
      }
      if state.failedStep != "" && state.failedStep != resumeFrom && !force {
        return FailedElsewhere(state.failedStep);
      }
      start := From(i);
    }

    method Run(run: Invocation) returns (result: Result)
      modifies this
      ensures After(old(log), RunOnce(steps, types, old(file), run)) == Report(file, log, result)
    {
      var state := Load(file);
      var resumeIndex := 0;
      if run.resumeFrom != "" {
        var start := ResolveResumeIndex(state, run.resumeFrom, run.force);
        if !start.From? {
          return Refused(start);
        }
        resumeIndex := start.index;
      } else if state.failedStep != "" {
        return Refused(ResumeNeeded(state.failedStep));
      }
      ghost var whole := After(log, Continue(steps, types, resumeIndex, state, file, run.attempt));
      for i := resumeIndex to |steps|
        invariant After(log, Continue(steps, types, i, state, file, run.attempt)) == whole
      {
        var step := steps[i];
        if step.name in state.completed {
          continue;
        }
        if step.stepType !in types {
          return UnknownType(step.name);
        }
        var a := run.attempt(step.name);
        ghost var logged, rest := log, Continue(steps, types, i, state, file, run.attempt);
        var stop;
        state, stop := ExecuteStep(step, a, state);
        AfterIsAssociative(logged, log[|logged|..], rest.(log := rest.log[1..]));
        if stop.Some? {
          return stop.value;
        }
      }
      file := Missing;
      result := Success;
    }

    /** One step, with what the executor records about it. */
    method ExecuteStep(step: Step, a: Attempt, state: PlaybookState) returns (state': PlaybookState, stop: Option<Result>)
      modifies this
      ensures Attempted(state', file, stop) == AfterAttempt(step, a, state, old(file))
      ensures log == old(log) + [Event(step.name, a.outcome, a.partial)]
    {
      state' := state;
      log := log + [Event(step.name, a.outcome, a.partial)];
      if a.partial {
        state' := Enter(state', step.name, "");
        SaveState(state', a.saves);
      }
      if a.outcome.Killed? {
        return state', Some(Interrupted(step.name));
      }
      if a.outcome.Failed? {
        state' := Fail(state', step.name, a.outcome.error);
        SaveState(state', a.saves);
        return state', Some(StepFailed(step.name));
      }
      if !step.synthetic {
        state' := Complete(state', step.name, a.outcome);
        SaveState(state', a.saves);
      }
      stop := None;
    }

    method SaveState(state: PlaybookState, works: bool)
      modifies this`file
      ensures file == Save(old(file), state, works)
    {
      if works {
        file := Saved(state);
      }
    }
  }
}
