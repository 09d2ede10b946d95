/** What a sequence of runs of the executor keeps: the order of the steps, and that none is repeated. */
module ResumeSafety {
  import opened Executor
  import opened Sequence
  import opened StepGraph
  import opened Wrappers

  /** Names are set and distinct, as playbook validation demands. */
  predicate IsPlaybook(steps: seq<Step>) {
    DistinctSteps(steps) && forall k | 0 <= k < |steps| :: steps[k].name != ""
  }

  /** What counts as done: a step that passed (or was skipped), or one that is on record, also if it
      entered itself before it failed or was killed. */
  datatype Sense = ByPass | ByRecord {
    predicate Counts(e: Event) {
      e.outcome.Finishes() || (ByRecord? && e.early)
    }
  }

  ghost function DoneSteps(log: seq<Event>, sense: Sense): set<string> {
    set e | e in log && sense.Counts(e) :: e.name
  }

  ghost function PassedSteps(log: seq<Event>): set<string> {
    DoneSteps(log, ByPass)
  }

  ghost function RecordedSteps(log: seq<Event>): set<string> {
    DoneSteps(log, ByRecord)
  }

  /** Every non-synthetic step among the first i is in done. */
  ghost predicate DoneBefore(steps: seq<Step>, i: nat, done: set<string>)
    requires i <= |steps|
  {
    forall k | 0 <= k < i && !steps[k].synthetic :: steps[k].name in done
  }

  /** Step k is executed after the steps in done passed: all non-synthetic steps before it are
      among them, and it is not, unless it is synthetic. */
  ghost predicate InTurn(steps: seq<Step>, k: nat, done: set<string>) {
    k < |steps| && DoneBefore(steps, k, done) && (steps[k].synthetic || steps[k].name !in done)
  }

  ghost predicate Executes(steps: seq<Step>, log: seq<Event>, j: nat, k: nat) {
    j < |log| && k < |steps| && log[j].name == steps[k].name
  }

  ghost predicate WellOrdered(steps: seq<Step>, log: seq<Event>, sense: Sense) {
    forall j: nat, k: nat {:trigger Executes(steps, log, j, k)} | Executes(steps, log, j, k) ::
      InTurn(steps, k, DoneSteps(log[..j], sense))
  }

  /** The completed entries of the non-synthetic steps are those that went on record, and everything
      before a recorded failure did. */
  ghost predicate Tracks(steps: seq<Step>, state: PlaybookState, log: seq<Event>) {
    && (forall k | 0 <= k < |steps| && !steps[k].synthetic ::
          steps[k].name in state.completed <==> steps[k].name in RecordedSteps(log))
    && (state.failedStep != "" ==>
          exists k: nat :: Named(steps, k, state.failedStep) && DoneBefore(steps, k, RecordedSteps(log)))
  }

  ghost predicate Named(steps: seq<Step>, k: nat, name: string) {
    k < |steps| && steps[k].name == name
  }

  /** Saves work. */
  ghost predicate Saves(attempt: string -> Attempt) {
    forall n :: attempt(n).saves
  }

  /** Not forced, and resumed only at the failure on record. */
  ghost predicate Disciplined(file: StateFile, run: Invocation) {
    !run.force && (run.resumeFrom != "" ==> Load(file).failedStep == run.resumeFrom)
  }

  // --- one run ---

  lemma LogGrows(steps: seq<Step>, log: seq<Event>, i: nat, e: Event, sense: Sense)
    requires DistinctSteps(steps) && WellOrdered(steps, log, sense)
    requires i < |steps| && e.name == steps[i].name && InTurn(steps, i, DoneSteps(log, sense))
    ensures WellOrdered(steps, log + [e], sense)
    ensures DoneSteps(log + [e], sense) == DoneSteps(log, sense) + if sense.Counts(e) then {e.name} else {}
  {
    var log' := log + [e];
    forall j: nat, k: nat | Executes(steps, log', j, k) ensures InTurn(steps, k, DoneSteps(log'[..j], sense)) {
      if j < |log| {
        assert log'[..j] == log[..j] && Executes(steps, log, j, k);
      } else {
        assert log'[..j] == log && k == i;
      }
    }
    assert e in log' && forall x | x in log :: x in log';
  }

  lemma AttemptKeeps(steps: seq<Step>, i: nat, a: Attempt, state: PlaybookState, file: StateFile, log: seq<Event>)
    requires IsPlaybook(steps) && i < |steps| && a.saves
    requires WellOrdered(steps, log, ByRecord) && DoneBefore(steps, i, RecordedSteps(log))
    requires steps[i].name !in state.completed
    requires Tracks(steps, state, log) && Tracks(steps, Load(file), log)
    ensures WellOrdered(steps, log + [Event(steps[i].name, a.outcome, a.partial)], ByRecord)
    ensures var after, log' := AfterAttempt(steps[i], a, state, file), log + [Event(steps[i].name, a.outcome, a.partial)];
      && Tracks(steps, after.state, log') && Tracks(steps, Load(after.file), log')
      && (after.stop.None? ==> DoneBefore(steps, i + 1, RecordedSteps(log')))
  {
    var log' := log + [Event(steps[i].name, a.outcome, a.partial)];
    LogGrows(steps, log, i, Event(steps[i].name, a.outcome, a.partial), ByRecord);
    StillDone(steps, i, RecordedSteps(log), RecordedSteps(log'));
    var after := AfterAttempt(steps[i], a, state, file);
    TracksAfter(steps, i, state, after.state, log, log');
    if after.file == file {
      TracksAfter(steps, i, Load(file), Load(file), log, log');
    } else {
      TracksAfter(steps, i, state, Load(after.file), log, log');
    }
  }

  /** A record stays true if at most the step in turn is entered, as it is in the log, and the failure on
      record is the old one, none, or this step. */
  lemma TracksAfter(steps: seq<Step>, i: nat, state: PlaybookState, state': PlaybookState, log: seq<Event>, log': seq<Event>)
    requires DistinctSteps(steps) && i < |steps| && Tracks(steps, state, log) && DoneBefore(steps, i, RecordedSteps(log))
    requires var name, before, now := steps[i].name, RecordedSteps(log), RecordedSteps(log');
      && before <= now <= before + {name}
      && (forall n | n != name :: n in state'.completed <==> n in state.completed)
      && (steps[i].synthetic || (name in state'.completed <==> name in now))
    requires state'.failedStep in {"", state.failedStep, steps[i].name}
    ensures Tracks(steps, state', log')
  {
    var now := RecordedSteps(log');
    forall k | 0 <= k < |steps| && !steps[k].synthetic ensures steps[k].name in state'.completed <==> steps[k].name in now {
      if k != i { assert steps[k].name != steps[i].name; }
    }
    if state'.failedStep == steps[i].name {
      assert Named(steps, i, state'.failedStep) && DoneBefore(steps, i, now);
    } else if state'.failedStep != "" {
      var k: nat :| Named(steps, k, state.failedStep) && DoneBefore(steps, k, RecordedSteps(log));
      assert Named(steps, k, state'.failedStep) && DoneBefore(steps, k, now);
    }
  }

  lemma StillDone(steps: seq<Step>, i: nat, done: set<string>, done': set<string>)
    requires i < |steps| && DoneBefore(steps, i, done) && done <= done'
    ensures DoneBefore(steps, i, done')
    ensures steps[i].synthetic || steps[i].name in done' ==> DoneBefore(steps, i + 1, done')
  {
  }

  /** A run that starts where it may keeps the order in which steps go on record, and ends with a true
      record or with all steps on record. */
  lemma {:induction false} ContinueKeeps(steps: seq<Step>, types: set<string>, i: nat, state: PlaybookState,
                                         file: StateFile, attempt: string -> Attempt, log: seq<Event>)
    requires IsPlaybook(steps) && i <= |steps| && Saves(attempt)
    requires WellOrdered(steps, log, ByRecord) && DoneBefore(steps, i, RecordedSteps(log))
    requires Tracks(steps, state, log) && Tracks(steps, Load(file), log)
    ensures var r := After(log, Continue(steps, types, i, state, file, attempt));
      && WellOrdered(steps, r.log, ByRecord)
      && (r.result.Success? ==> DoneBefore(steps, |steps|, RecordedSteps(r.log)))
      && (!r.result.Success? ==> Tracks(steps, Load(r.file), r.log))
    decreases |steps| - i
  {
    if i == |steps| {
      assert log + [] == log;
    } else if steps[i].name in state.completed {
      ContinueKeeps(steps, types, i + 1, state, file, attempt, log);
    } else if steps[i].stepType !in types {
      assert log + [] == log;
    } else {
      OneAttempt(steps, types, i, state, file, attempt, log);
      var a := attempt(steps[i].name);
      var after := AfterAttempt(steps[i], a, state, file);
      if after.stop.None? {
        ContinueKeeps(steps, types, i + 1, after.state, after.file, attempt, log + [Event(steps[i].name, a.outcome, a.partial)]);
      }
    }
  }

  lemma OneAttempt(steps: seq<Step>, types: set<string>, i: nat, state: PlaybookState, file: StateFile,
                   attempt: string -> Attempt, log: seq<Event>)
    requires IsPlaybook(steps) && i < |steps| && Saves(attempt)
    requires WellOrdered(steps, log, ByRecord) && DoneBefore(steps, i, RecordedSteps(log))
    requires Tracks(steps, state, log) && Tracks(steps, Load(file), log)
    requires steps[i].name !in state.completed && steps[i].stepType in types
    ensures var a := attempt(steps[i].name);
      var after, log' := AfterAttempt(steps[i], a, state, file), log + [Event(steps[i].name, a.outcome, a.partial)];
      && WellOrdered(steps, log', ByRecord) && Tracks(steps, after.state, log') && Tracks(steps, Load(after.file), log')
      && (after.stop.None? ==> DoneBefore(steps, i + 1, RecordedSteps(log')))
      && (after.stop.Some? ==> !after.stop.value.Success?)
      && After(log, Continue(steps, types, i, state, file, attempt)) ==
           if after.stop.Some? then Report(after.file, log', after.stop.value)
           else After(log', Continue(steps, types, i + 1, after.state, after.file, attempt))
  {
    AttemptKeeps(steps, i, attempt(steps[i].name), state, file, log);
    OneStep(steps, types, i, state, file, attempt, log);
  }

  lemma OneStep(steps: seq<Step>, types: set<string>, i: nat, state: PlaybookState, file: StateFile,
                attempt: string -> Attempt, log: seq<Event>)
    requires i < |steps| && steps[i].name !in state.completed && steps[i].stepType in types
    ensures var a := attempt(steps[i].name);
      var after, log' := AfterAttempt(steps[i], a, state, file), log + [Event(steps[i].name, a.outcome, a.partial)];
      After(log, Continue(steps, types, i, state, file, attempt)) ==
        if after.stop.Some? then Report(after.file, log', after.stop.value)
        else After(log', Continue(steps, types, i + 1, after.state, after.file, attempt))
  {
    var a := attempt(steps[i].name);
    var after := AfterAttempt(steps[i], a, state, file);
    var rest := if after.stop.Some? then Report(after.file, [], after.stop.value)
                else Continue(steps, types, i + 1, after.state, after.file, attempt);
    AfterIsAssociative(log, [Event(steps[i].name, a.outcome, a.partial)], rest);
  }

  // --- all runs ---

  /** The state file and everything executed, after a sequence of runs that begins with no state file. */
  ghost function Replay(steps: seq<Step>, types: set<string>, runs: seq<Invocation>): Report {
    if runs == [] then Report(Missing, [], Refused(NoStateFile))
    else
      var before := Replay(steps, types, runs[..|runs| - 1]);
      After(before.log, RunOnce(steps, types, before.file, runs[|runs| - 1]))
  }

  /** Every run is disciplined, saves work, and none but the last run succeeds. */
  ghost predicate UntilSuccess(steps: seq<Step>, types: set<string>, runs: seq<Invocation>) {
    runs == [] ||
    var before := Replay(steps, types, runs[..|runs| - 1]);
    && UntilSuccess(steps, types, runs[..|runs| - 1]) && !before.result.Success?
    && Disciplined(before.file, runs[|runs| - 1]) && Saves(runs[|runs| - 1].attempt)
  }

  lemma {:induction false} RunsKeepRecord(steps: seq<Step>, types: set<string>, runs: seq<Invocation>)
    requires IsPlaybook(steps) && UntilSuccess(steps, types, runs)
    ensures var r := Replay(steps, types, runs);
      && WellOrdered(steps, r.log, ByRecord)
      && (r.result.Success? ==> DoneBefore(steps, |steps|, RecordedSteps(r.log)))
      && (!r.result.Success? ==> Tracks(steps, Load(r.file), r.log))
  {
    if runs != [] {
      var before, run := Replay(steps, types, runs[..|runs| - 1]), runs[|runs| - 1];
      RunsKeepRecord(steps, types, runs[..|runs| - 1]);
      DisciplinedRunKeeps(steps, types, before.file, run, before.log);
    }
  }

  lemma DisciplinedRunKeeps(steps: seq<Step>, types: set<string>, file: StateFile, run: Invocation, log: seq<Event>)
    requires IsPlaybook(steps) && Saves(run.attempt) && Disciplined(file, run)
    requires WellOrdered(steps, log, ByRecord) && Tracks(steps, Load(file), log)
    ensures var r := After(log, RunOnce(steps, types, file, run));
      && WellOrdered(steps, r.log, ByRecord)
      && (r.result.Success? ==> DoneBefore(steps, |steps|, RecordedSteps(r.log)))
      && (!r.result.Success? ==> Tracks(steps, Load(r.file), r.log))
  {
    var start := Begin(steps, file, run.resumeFrom, run.force);
    if start.From? {
      StartIsInTurn(steps, file, run, log);
      ContinueKeeps(steps, types, start.index, Load(file), file, run.attempt, log);
    } else {
      assert log + [] == log;
    }
  }

  lemma StartIsInTurn(steps: seq<Step>, file: StateFile, run: Invocation, log: seq<Event>)
    requires IsPlaybook(steps) && Disciplined(file, run) && Tracks(steps, Load(file), log)
    requires Begin(steps, file, run.resumeFrom, run.force).From?
    ensures DoneBefore(steps, Begin(steps, file, run.resumeFrom, run.force).index, RecordedSteps(log))
  {
    var i := Begin(steps, file, run.resumeFrom, run.force).index;
    if run.resumeFrom != "" {
      var k: nat :| Named(steps, k, run.resumeFrom) && DoneBefore(steps, k, RecordedSteps(log));
      assert steps[i].name == steps[k].name;
    }
  }

  // --- steps on record that did not pass ---

  /** No non-synthetic step has entered itself and then failed or been killed. */
  ghost predicate NoneEarly(steps: seq<Step>, log: seq<Event>) {
    forall h: nat, i: nat {:trigger Executes(steps, log, h, i)} |
      Executes(steps, log, h, i) && !steps[i].synthetic :: !log[h].EarlyOnly()
  }

  /** After one that has, no later step is executed. */
  ghost predicate NothingFollows(steps: seq<Step>, log: seq<Event>) {
    forall h: nat, i: nat {:trigger Executes(steps, log, h, i)} |
      Executes(steps, log, h, i) && !steps[i].synthetic && log[h].EarlyOnly() :: NoneLater(steps, log, h, i)
  }

  ghost predicate NoneLater(steps: seq<Step>, log: seq<Event>, h: nat, i: nat) {
    forall j: nat, k: nat {:trigger Executes(steps, log, j, k)} | Executes(steps, log, j, k) :: j <= h || k <= i
  }

  lemma DoneAt(log: seq<Event>, j: nat, sense: Sense, name: string) returns (h: nat)
    requires j <= |log| && name in DoneSteps(log[..j], sense)
    ensures h < j && log[h].name == name && sense.Counts(log[h])
  {
    var e :| e in log[..j] && sense.Counts(e) && e.name == name;
    h :| 0 <= h < j && log[..j][h] == e;
  }

  lemma DoneFrom(log: seq<Event>, j: nat, sense: Sense, h: nat)
    requires h < j <= |log| && sense.Counts(log[h])
    ensures log[h].name in DoneSteps(log[..j], sense)
  {
    assert log[..j][h] == log[h];
  }

  /** If steps go on record in order, a step that entered itself early and did not finish never passes. */
  lemma EarlyNeverPasses(steps: seq<Step>, log: seq<Event>, j: nat, h: nat, i: nat)
    requires WellOrdered(steps, log, ByRecord) && j <= |log| && Executes(steps, log, h, i)
    requires !steps[i].synthetic && log[h].EarlyOnly()
    ensures steps[i].name !in PassedSteps(log[..j])
  {
    if steps[i].name in PassedSteps(log[..j]) {
      var g := DoneAt(log, j, ByPass, steps[i].name);
      assert Executes(steps, log, g, i);
      if g < h { DoneFrom(log, h, ByRecord, g); } else { DoneFrom(log, g, ByRecord, h); }
      assert false;
    }
  }

  lemma PassedIsRecorded(log: seq<Event>)
    ensures PassedSteps(log) <= RecordedSteps(log)
  {
  }

  /** A step on record has passed if and only if no attempt at it was early only. */
  lemma PassedIff(steps: seq<Step>, log: seq<Event>, j: nat, i: nat)
    requires WellOrdered(steps, log, ByRecord) && j <= |log| && i < |steps| && !steps[i].synthetic
    requires steps[i].name in RecordedSteps(log[..j])
    ensures steps[i].name in PassedSteps(log[..j]) <==> forall e | e in log[..j] && e.name == steps[i].name :: !e.EarlyOnly()
  {
    var h := DoneAt(log, j, ByRecord, steps[i].name);
    assert log[..j][h] == log[h];
    if e :| e in log[..j] && e.name == steps[i].name && e.EarlyOnly() {
      var g :| 0 <= g < j && log[..j][g] == e;
      assert Executes(steps, log, g, i);
      EarlyNeverPasses(steps, log, j, g, i);
    } else {
      DoneFrom(log, j, ByPass, h);
    }
  }

  /** If steps go on record in order, they pass in order if and only if nothing follows a step that
      entered itself early and did not finish. */
  lemma PassInOrderIff(steps: seq<Step>, log: seq<Event>)
    requires WellOrdered(steps, log, ByRecord)
    ensures WellOrdered(steps, log, ByPass) <==> NothingFollows(steps, log)
  {
    if WellOrdered(steps, log, ByPass) {
      forall h: nat, i: nat | Executes(steps, log, h, i) && !steps[i].synthetic && log[h].EarlyOnly()
        ensures NoneLater(steps, log, h, i)
      {
        forall j: nat, k: nat | Executes(steps, log, j, k) ensures j <= h || k <= i {
          EarlyNeverPasses(steps, log, j, h, i);
        }
      }
    }
    if NothingFollows(steps, log) {
      forall j: nat, k: nat | Executes(steps, log, j, k) ensures InTurn(steps, k, PassedSteps(log[..j])) {
        PassedIsRecorded(log[..j]);
        forall i | 0 <= i < k && !steps[i].synthetic ensures steps[i].name in PassedSteps(log[..j]) {
          var h := DoneAt(log, j, ByRecord, steps[i].name);
          assert Executes(steps, log, h, i);
          assert !log[h].EarlyOnly();
          DoneFrom(log, j, ByPass, h);
        }
      }
    }
  }

  lemma AllPassedIff(steps: seq<Step>, log: seq<Event>)
    requires WellOrdered(steps, log, ByRecord) && DoneBefore(steps, |steps|, RecordedSteps(log))
    ensures DoneBefore(steps, |steps|, PassedSteps(log)) <==> NoneEarly(steps, log)
  {
    assert log[..|log|] == log;
    if NoneEarly(steps, log) {
      forall i | 0 <= i < |steps| && !steps[i].synthetic ensures steps[i].name in PassedSteps(log) {
        var h := DoneAt(log, |log|, ByRecord, steps[i].name);
        assert Executes(steps, log, h, i);
        DoneFrom(log, |log|, ByPass, h);
      }
    } else {
      var h: nat, i: nat :| Executes(steps, log, h, i) && !steps[i].synthetic && log[h].EarlyOnly();
      EarlyNeverPasses(steps, log, |log|, h, i);
    }
  }

  /** Over any number of runs until the first success: every step is executed only after all
      non-synthetic steps before it went on record, and no non-synthetic step again after it did;
      everything before a recorded failure is on record.  Steps pass in order if and only if nothing is
      executed after a step that entered itself and then failed or was killed; and on success all steps
      have passed if and only if there was no such step. */
  lemma RunsKeepOrder(steps: seq<Step>, types: set<string>, runs: seq<Invocation>)
    requires IsPlaybook(steps) && UntilSuccess(steps, types, runs)
    ensures var r := Replay(steps, types, runs);
      && WellOrdered(steps, r.log, ByRecord)
      && (WellOrdered(steps, r.log, ByPass) <==> NothingFollows(steps, r.log))
      && (r.result.Success? ==>
            && DoneBefore(steps, |steps|, RecordedSteps(r.log))
            && (DoneBefore(steps, |steps|, PassedSteps(r.log)) <==> NoneEarly(steps, r.log)))
      && (!r.result.Success? ==> Tracks(steps, Load(r.file), r.log))
  {
    var r := Replay(steps, types, runs);
    RunsKeepRecord(steps, types, runs);
    PassInOrderIff(steps, r.log);
    if r.result.Success? { AllPassedIff(steps, r.log); }
  }

  /** With the steps in the order the sequencer gave them: when a step is executed, each of its
      dependencies that the sequencer kept is on record, unless it is synthetic; and has passed, unless
      it had entered itself and then failed or been killed. */
  lemma DependenciesPassFirst(playbook: seq<Step>, graph: Adjacency<string>, kept: Adjacency<string>,
                              index: map<string, int>, steps: seq<Step>, warnings: seq<seq<string>>,
                              types: set<string>, runs: seq<Invocation>, j: nat, a: Step)
    requires IsSequenced(playbook, graph, kept, index, steps, warnings)
    requires IsPlaybook(steps) && UntilSuccess(steps, types, runs)
    requires var log := Replay(steps, types, runs).log;
      j < |log| && log[j].name in NameSet(steps) && a in steps && log[j].name in Out(kept, a.name) && !a.synthetic
    ensures var before := Replay(steps, types, runs).log[..j];
      && a.name in RecordedSteps(before)
      && (a.name in PassedSteps(before) <==> forall e | e in before && e.name == a.name :: !e.EarlyOnly())
  {
    var log := Replay(steps, types, runs).log;
    RunsKeepRecord(steps, types, runs);
    SequencedRespects(playbook, graph, kept, index, steps, warnings);
    KeptPassFirst(NameSet(playbook), kept, steps, log, j, a);
    var i :| 0 <= i < |steps| && steps[i] == a;
    PassedIff(steps, log, j, i);
  }

  lemma SequencedRespects(playbook: seq<Step>, graph: Adjacency<string>, kept: Adjacency<string>,
                          index: map<string, int>, steps: seq<Step>, warnings: seq<seq<string>>)
    requires IsSequenced(playbook, graph, kept, index, steps, warnings)
    ensures Respects(NameSet(playbook), kept, NamesOf(steps))
    ensures forall a | a in steps :: a.name in NameSet(playbook)
  {
    forall a | a in steps ensures a.name in NameSet(playbook) {
      assert a in multiset(steps);
      assert a in playbook;
    }
  }

  lemma KeptPassFirst(names: set<string>, kept: Adjacency<string>, steps: seq<Step>, log: seq<Event>, j: nat, a: Step)
    requires DistinctSteps(steps) && WellOrdered(steps, log, ByRecord) && Respects(names, kept, NamesOf(steps))
    requires j < |log| && log[j].name in NameSet(steps)
    requires a in steps && a.name in names && log[j].name in Out(kept, a.name) && !a.synthetic
    ensures a.name in RecordedSteps(log[..j])
  {
    var k :| 0 <= k < |steps| && steps[k].name == log[j].name;
    assert Executes(steps, log, j, k);
    var i := KeptComesFirst(names, kept, steps, k, a);
  }

  lemma KeptComesFirst(names: set<string>, kept: Adjacency<string>, steps: seq<Step>, k: nat, a: Step) returns (i: nat)
    requires DistinctSteps(steps) && Respects(names, kept, NamesOf(steps)) && k < |steps|
    requires a in steps && a.name in names && steps[k].name in Out(kept, a.name)
    ensures i < k && steps[i] == a
  {
    var order := NamesOf(steps);
    assert order[k] == steps[k].name;
    assert a.name in Preds(names, kept, order[k]);
    assert a.name in Elements(order[..k]);
    i :| 0 <= i < k && order[..k][i] == a.name;
    assert order[i] == steps[i].name;
  }

  // --- resuming without a recorded failure ---

  /** From a true record, an accepted resume keeps the order in which steps go on record if and only if
      it executes nothing or every non-synthetic step before the one it starts at is on record; steps then
      pass in order if and only if nothing follows one that is on record without having finished.  Unforced,
      and with a failure on record, the start is right; but with none the code accepts any step once there
      is a state file. */
  lemma ResumeIsSafeIff(steps: seq<Step>, types: set<string>, file: StateFile, run: Invocation, log: seq<Event>)
    requires IsPlaybook(steps) && Saves(run.attempt)
    requires WellOrdered(steps, log, ByRecord) && Tracks(steps, Load(file), log)
    requires Begin(steps, file, run.resumeFrom, run.force).From?
    ensures var i, r := Begin(steps, file, run.resumeFrom, run.force).index, RunOnce(steps, types, file, run);
      var safe := r.log == [] || DoneBefore(steps, i, RecordedSteps(log));
      && (WellOrdered(steps, log + r.log, ByRecord) <==> safe)
      && (WellOrdered(steps, log + r.log, ByPass) <==> safe && NothingFollows(steps, log + r.log))
      && (!run.force && (run.resumeFrom == "" || Load(file).failedStep != "") ==> DoneBefore(steps, i, RecordedSteps(log)))
  {
    if Disciplined(file, run) {
      StartIsInTurn(steps, file, run, log);
    }
    var i, r := Begin(steps, file, run.resumeFrom, run.force).index, RunOnce(steps, types, file, run);
    if r.log == [] {
      assert log + r.log == log;
      PassInOrderIff(steps, log);
    } else {
      SafeStartIff(steps, types, i, file, run, log);
    }
  }

  lemma SafeStartIff(steps: seq<Step>, types: set<string>, i: nat, file: StateFile, run: Invocation, log: seq<Event>)
    requires IsPlaybook(steps) && Saves(run.attempt) && i <= |steps|
    requires WellOrdered(steps, log, ByRecord) && Tracks(steps, Load(file), log)
    requires Continue(steps, types, i, Load(file), file, run.attempt).log != []
    ensures var r := Continue(steps, types, i, Load(file), file, run.attempt).log;
      var safe := DoneBefore(steps, i, RecordedSteps(log));
      && (WellOrdered(steps, log + r, ByRecord) <==> safe)
      && (WellOrdered(steps, log + r, ByPass) <==> safe && NothingFollows(steps, log + r))
  {
    var r := Continue(steps, types, i, Load(file), file, run.attempt).log;
    var k := FirstExecuted(steps, types, i, Load(file), file, run.attempt);
    assert (log + r)[|log|] == r[0] && (log + r)[..|log|] == log;
    assert Executes(steps, log + r, |log|, k);
    PassedIsRecorded(log);
    if DoneBefore(steps, i, RecordedSteps(log)) {
      ContinueKeeps(steps, types, i, Load(file), file, run.attempt, log);
      PassInOrderIff(steps, log + r);
    }
  }

  lemma {:induction false} FirstExecuted(steps: seq<Step>, types: set<string>, i: nat, state: PlaybookState,
                                         file: StateFile, attempt: string -> Attempt) returns (k: nat)
    requires i <= |steps| && Continue(steps, types, i, state, file, attempt).log != []
    ensures i <= k < |steps| && Continue(steps, types, i, state, file, attempt).log[0].name == steps[k].name
    ensures steps[k].name !in state.completed
    ensures forall m | i <= m < k :: steps[m].name in state.completed
    decreases |steps| - i
  {
    if steps[i].name in state.completed {
      k := FirstExecuted(steps, types, i + 1, state, file, attempt);
    } else {
      k := i;
    }
  }

  lemma TwoRuns(steps: seq<Step>, types: set<string>, first: Invocation, second: Invocation)
    ensures var one := RunOnce(steps, types, Missing, first);
      && Replay(steps, types, [first]) == one
      && Replay(steps, types, [first, second]) == After(one.log, RunOnce(steps, types, one.file, second))
  {
    assert [first, second][..1] == [first] && [first][..0] == [];
    assert forall log: seq<Event> :: [] + log == log;
  }

  lemma TwoUntilSuccess(steps: seq<Step>, types: set<string>, first: Invocation, second: Invocation)
    requires Saves(first.attempt) && Saves(second.attempt) && Disciplined(Missing, first)
    requires var one := RunOnce(steps, types, Missing, first); !one.result.Success? && Disciplined(one.file, second)
    ensures UntilSuccess(steps, types, [first, second])
  {
    var none: seq<Invocation> := [];
    TwoRuns(steps, types, first, second);
    assert [first, second][..1] == [first] && [first][..0] == none;
    assert UntilSuccess(steps, types, none);
    assert UntilSuccess(steps, types, [first]);
  }

  const ALWAYS := Attempt(Passed, false, true)

  /** After a run that was killed in its second step, the third can be resumed at, and is executed,
      though the second never passed. */
  lemma KilledThenSkipped() returns (steps: seq<Step>, types: set<string>, first: Invocation, second: Invocation)
    ensures IsPlaybook(steps) && !first.force && !second.force
    ensures Saves(first.attempt) && Saves(second.attempt)
    ensures var r := Replay(steps, types, [first, second]);
      r.result.Success? && NoneEarly(steps, r.log) && !WellOrdered(steps, r.log, ByPass)
  {
    var a, b, c := Step("a", "t", [], "", false), Step("b", "t", [], "", false), Step("c", "t", [], "", false);
    steps, types := [a, b, c], {"t"};
    first := Invocation("", false, n => if n == "b" then Attempt(Killed, false, true) else ALWAYS);
    second := Invocation("c", false, n => ALWAYS);
    var saved := Saved(PlaybookState(map["a" := "completed"], "", ""));
    TwoRuns(steps, types, first, second);
    assert Continue(steps, types, 1, Load(saved), saved, first.attempt) == Report(saved, [Event("b", Killed, false)], Interrupted("b"));
    var one := Continue(steps, types, 0, Load(Missing), Missing, first.attempt);
    assert one.file == saved && one.log == [Event("a", Passed, false), Event("b", Killed, false)];
    assert steps[2].name == "c" && FirstNamed(steps, "c") == 2;
    var end := AfterAttempt(c, ALWAYS, Load(saved), saved);
    assert Continue(steps, types, 3, end.state, end.file, second.attempt) == Report(Missing, [], Success);
    var two := Continue(steps, types, 2, Load(saved), saved, second.attempt);
    assert two.log == [Event("c", Passed, false)];
    var log := one.log + two.log;
    assert log[..2] == one.log && Executes(steps, log, 2, 2);
    assert steps[1].name == "b" && "b" !in PassedSteps(log[..2]);
  }

  // --- resuming from a state file that can not be read ---

  /** No non-synthetic step from i on is executed in r that is in done. */
  ghost predicate NoneAgain(steps: seq<Step>, i: nat, done: set<string>, r: seq<Event>) {
    forall k: nat {:trigger ExecutedIn(steps, k, r)} | i <= k && ExecutedIn(steps, k, r) && !steps[k].synthetic ::
      steps[k].name !in done
  }

  ghost predicate ExecutedIn(steps: seq<Step>, k: nat, r: seq<Event>) {
    k < |steps| && exists e :: e in r && e.name == steps[k].name
  }

  lemma PassedGrow(log: seq<Event>, more: seq<Event>)
    ensures PassedSteps(log) <= PassedSteps(log + more)
  {
    assert forall e | e in log :: e in log + more;
  }

  /** A run of steps of which none is on record keeps the order if none has passed before. */
  lemma {:induction false} ForgetfulKeeps(steps: seq<Step>, types: set<string>, i: nat, state: PlaybookState, file: StateFile,
                                          attempt: string -> Attempt, log: seq<Event>, done: set<string>)
    requires IsPlaybook(steps) && i <= |steps|
    requires WellOrdered(steps, log, ByPass) && DoneBefore(steps, i, PassedSteps(log))
    requires forall k | i <= k < |steps| ::
      steps[k].name !in state.completed && (steps[k].name in PassedSteps(log) ==> steps[k].name in done)
    requires NoneAgain(steps, i, done, Continue(steps, types, i, state, file, attempt).log)
    ensures WellOrdered(steps, log + Continue(steps, types, i, state, file, attempt).log, ByPass)
    decreases |steps| - i
  {
    var r := Continue(steps, types, i, state, file, attempt);
    if i == |steps| || steps[i].stepType !in types {
      assert log + r.log == log;
    } else {
      var a := attempt(steps[i].name);
      var e, after := Event(steps[i].name, a.outcome, a.partial), AfterAttempt(steps[i], a, state, file);
      assert e in r.log;
      assert ExecutedIn(steps, i, r.log);
      ForgetfulStep(steps, i, a, state, file, log, done);
      if after.stop.Some? {
        assert r.log == [e];
      } else {
        var rest := Continue(steps, types, i + 1, after.state, after.file, attempt);
        assert r.log == [e] + rest.log;
        LaterNoneAgain(steps, i, done, e, rest.log);
        ForgetfulKeeps(steps, types, i + 1, after.state, after.file, attempt, log + [e], done);
        assert log + [e] + rest.log == log + r.log;
      }
    }
  }

  lemma ForgetfulStep(steps: seq<Step>, i: nat, a: Attempt, state: PlaybookState, file: StateFile, log: seq<Event>, done: set<string>)
    requires IsPlaybook(steps) && i < |steps| && WellOrdered(steps, log, ByPass) && DoneBefore(steps, i, PassedSteps(log))
    requires forall k | i <= k < |steps| ::
      steps[k].name !in state.completed && (steps[k].name in PassedSteps(log) ==> steps[k].name in done)
    requires steps[i].synthetic || steps[i].name !in done
    ensures var after, log' := AfterAttempt(steps[i], a, state, file), log + [Event(steps[i].name, a.outcome, a.partial)];
      && WellOrdered(steps, log', ByPass)
      && (after.stop.None? ==>
            && DoneBefore(steps, i + 1, PassedSteps(log'))
            && forall k | i + 1 <= k < |steps| ::
                 steps[k].name !in after.state.completed && (steps[k].name in PassedSteps(log') ==> steps[k].name in done))
  {
    var log' := log + [Event(steps[i].name, a.outcome, a.partial)];
    LogGrows(steps, log, i, Event(steps[i].name, a.outcome, a.partial), ByPass);
    StillDone(steps, i, PassedSteps(log), PassedSteps(log'));
  }

  lemma LaterNoneAgain(steps: seq<Step>, i: nat, done: set<string>, e: Event, rest: seq<Event>)
    requires NoneAgain(steps, i, done, [e] + rest)
    ensures NoneAgain(steps, i + 1, done, rest)
  {
    forall k: nat | i + 1 <= k && ExecutedIn(steps, k, rest) && !steps[k].synthetic ensures steps[k].name !in done {
      var x :| x in rest && x.name == steps[k].name;
      assert x in [e] + rest;
      assert ExecutedIn(steps, k, [e] + rest);
    }
  }

  lemma OrderedIsNoneAgain(steps: seq<Step>, i: nat, log: seq<Event>, r: seq<Event>)
    requires WellOrdered(steps, log + r, ByPass)
    ensures NoneAgain(steps, i, PassedSteps(log), r)
  {
    forall k: nat | i <= k && ExecutedIn(steps, k, r) && !steps[k].synthetic ensures steps[k].name !in PassedSteps(log) {
      var e :| e in r && e.name == steps[k].name;
      var j :| 0 <= j < |r| && r[j] == e;
      assert (log + r)[|log| + j] == e && (log + r)[..|log| + j] == log + r[..j];
      assert Executes(steps, log + r, |log| + j, k);
      PassedGrow(log, r[..j]);
    }
  }

  /** In an ordered log a step that passed has all non-synthetic steps before it passed. */
  lemma PassedBefore(steps: seq<Step>, log: seq<Event>, i: nat, k: nat)
    requires WellOrdered(steps, log, ByPass) && i < k < |steps| && !steps[i].synthetic && steps[k].name in PassedSteps(log)
    ensures steps[i].name in PassedSteps(log)
  {
    var e :| e in log && ByPass.Counts(e) && e.name == steps[k].name;
    var j :| 0 <= j < |log| && log[j] == e;
    assert Executes(steps, log, j, k);
    assert log == log[..j] + log[j..];
    PassedGrow(log[..j], log[j..]);
  }

  /** A state file that can not be read counts as one without entries.  A run may then start at any step,
      unforced, and keeps the order if and only if it executes nothing, or everything before its start has
      passed and nothing it executes has; from a non-synthetic step, if and only if that step is next. */
  lemma CorruptFileIsSafeIff(steps: seq<Step>, types: set<string>, run: Invocation, log: seq<Event>)
    requires IsPlaybook(steps) && WellOrdered(steps, log, ByPass)
    ensures Begin(steps, Corrupt, run.resumeFrom, run.force).From? <==>
      run.resumeFrom == "" || exists k :: Named(steps, k, run.resumeFrom)
    ensures Begin(steps, Corrupt, run.resumeFrom, run.force).From? ==>
      var i, r := Begin(steps, Corrupt, run.resumeFrom, run.force).index, RunOnce(steps, types, Corrupt, run);
      var passed := PassedSteps(log);
      && (WellOrdered(steps, log + r.log, ByPass) <==>
            r.log == [] || (DoneBefore(steps, i, passed) && NoneAgain(steps, i, passed, r.log)))
      && (i < |steps| && !steps[i].synthetic ==>
            (WellOrdered(steps, log + r.log, ByPass) <==> r.log == [] || InTurn(steps, i, passed)))
  {
    var start := Begin(steps, Corrupt, run.resumeFrom, run.force);
    if run.resumeFrom != "" {
      var i := FirstNamed(steps, run.resumeFrom);
      if i < |steps| { assert Named(steps, i, run.resumeFrom); }
    }
    if start.From? {
      ForgottenIsSafeIff(steps, types, start.index, run, log);
    }
  }

  lemma ForgottenIsSafeIff(steps: seq<Step>, types: set<string>, i: nat, run: Invocation, log: seq<Event>)
    requires IsPlaybook(steps) && WellOrdered(steps, log, ByPass) && i <= |steps|
    ensures var r := Continue(steps, types, i, Load(Corrupt), Corrupt, run.attempt).log; var passed := PassedSteps(log);
      && (WellOrdered(steps, log + r, ByPass) <==> r == [] || (DoneBefore(steps, i, passed) && NoneAgain(steps, i, passed, r)))
      && (i < |steps| && !steps[i].synthetic ==> (WellOrdered(steps, log + r, ByPass) <==> r == [] || InTurn(steps, i, passed)))
  {
    var r, passed := Continue(steps, types, i, Load(Corrupt), Corrupt, run.attempt).log, PassedSteps(log);
    if r == [] {
      assert log + r == log;
    } else {
      var k := FirstExecuted(steps, types, i, Load(Corrupt), Corrupt, run.attempt);
      assert k == i && r[0] in r;
      assert ExecutedIn(steps, i, r);
      if WellOrdered(steps, log + r, ByPass) {
        assert (log + r)[|log|] == r[0] && (log + r)[..|log|] == log;
        assert Executes(steps, log + r, |log|, i);
        OrderedIsNoneAgain(steps, i, log, r);
      }
      if DoneBefore(steps, i, passed) && NoneAgain(steps, i, passed, r) {
        ForgetfulKeeps(steps, types, i, Load(Corrupt), Corrupt, run.attempt, log, passed);
      }
      if InTurn(steps, i, passed) && !steps[i].synthetic {
        NextIsNoneAgain(steps, i, log, r);
      }
    }
  }

  lemma NextIsNoneAgain(steps: seq<Step>, i: nat, log: seq<Event>, r: seq<Event>)
    requires WellOrdered(steps, log, ByPass) && InTurn(steps, i, PassedSteps(log)) && !steps[i].synthetic
    ensures NoneAgain(steps, i, PassedSteps(log), r)
  {
    forall k: nat | i <= k && ExecutedIn(steps, k, r) && !steps[k].synthetic ensures steps[k].name !in PassedSteps(log) {
      if i < k && steps[k].name in PassedSteps(log) { PassedBefore(steps, log, i, k); }
    }
  }

  // --- steps that record themselves before they are done ---

  /** A step that fails or is killed can still be executed by a run from the state file it leaves if and
      only if it had not entered itself as completed.  If it failed, the unforced resume at it then
      executes it first; if it had entered itself, no run does, however it is started. */
  lemma LeftStepIsRetriedIff(steps: seq<Step>, types: set<string>, i: nat, a: Attempt, state: PlaybookState,
                             file: StateFile, attempt: string -> Attempt)
    requires IsPlaybook(steps) && i < |steps| && steps[i].stepType in types
    requires steps[i].name !in state.completed && (a.outcome.Killed? ==> steps[i].name !in Load(file).completed)
    requires !a.outcome.Finishes() && a.saves
    ensures var name, left := steps[i].name, AfterAttempt(steps[i], a, state, file).file;
      && (!a.partial <==> exists run :: Reaches(steps, types, left, run, name))
      && (a.outcome.Failed? ==>
            var next := RunOnce(steps, types, left, Invocation(name, false, attempt));
            (next.log != [] && next.log[0].name == name) <==> !a.partial)
  {
    var name, left := steps[i].name, AfterAttempt(steps[i], a, state, file).file;
    assert FirstNamed(steps, name) == i;
    if a.partial {
      forall run ensures !Reaches(steps, types, left, run, name) {
        NoRunExecutes(steps, types, left, run, name);
      }
      NoRunExecutes(steps, types, left, Invocation(name, false, attempt), name);
    } else {
      var run := Invocation(name, true, attempt);
      var next := RunOnce(steps, types, left, run);
      assert next.log[0] in next.log && next.log[0].name == name;
      assert Reaches(steps, types, left, run, name);
    }
  }

  /** The run executes the step. */
  ghost predicate Reaches(steps: seq<Step>, types: set<string>, file: StateFile, run: Invocation, name: string) {
    exists e :: e in RunOnce(steps, types, file, run).log && e.name == name
  }

  lemma NoRunExecutes(steps: seq<Step>, types: set<string>, file: StateFile, run: Invocation, name: string)
    requires name in Load(file).completed
    ensures !Reaches(steps, types, file, run, name)
  {
    var start := Begin(steps, file, run.resumeFrom, run.force);
    if start.From? {
      CompletedIsNotExecuted(steps, types, start.index, Load(file), file, run.attempt, name);
    }
  }

  lemma {:induction false} CompletedIsNotExecuted(steps: seq<Step>, types: set<string>, i: nat, state: PlaybookState,
                                                  file: StateFile, attempt: string -> Attempt, name: string)
    requires i <= |steps| && name in state.completed
    ensures forall e | e in Continue(steps, types, i, state, file, attempt).log :: e.name != name
    decreases |steps| - i
  {
    if i == |steps| {
    } else if steps[i].name in state.completed {
      CompletedIsNotExecuted(steps, types, i + 1, state, file, attempt, name);
    } else if steps[i].stepType in types {
      var after := AfterAttempt(steps[i], attempt(steps[i].name), state, file);
      if after.stop.None? {
        CompletedIsNotExecuted(steps, types, i + 1, after.state, after.file, attempt, name);
      }
    }
  }

  /** So a step that failed, or was killed, after it had entered itself can be left behind by a success:
      after a failure by the resume at it, after a kill by a plain run. */
  lemma PartialStepIsLost(killed: bool)
    returns (steps: seq<Step>, types: set<string>, first: Invocation, second: Invocation)
    ensures IsPlaybook(steps) && UntilSuccess(steps, types, [first, second])
    ensures |steps| == 1 && first.attempt(steps[0].name).outcome.Killed? == killed && (killed ==> second.resumeFrom == "")
    ensures var r := Replay(steps, types, [first, second]);
      r.result.Success? && !DoneBefore(steps, |steps|, PassedSteps(r.log))
  {
    var attempt := Attempt(if killed then Killed else Failed("hop 2"), true, true);
    steps, types := [Step("upgrade", "olm", [], "", false)], {"olm"};
    first := Invocation("", false, n => attempt);
    second := Invocation(if killed then "" else "upgrade", false, n => ALWAYS);
    TwoRuns(steps, types, first, second);
    var one := RunOnce(steps, types, Missing, first);
    assert one.file == Saved(PlaybookState(map["upgrade" := ""], if killed then "" else "upgrade", if killed then "" else "hop 2"));
    assert steps[0].name == "upgrade" && FirstNamed(steps, "upgrade") == 0;
    TwoUntilSuccess(steps, types, first, second);
    assert one.log == [Event("upgrade", attempt.outcome, true)];
    assert steps[0].name !in PassedSteps(Replay(steps, types, [first, second]).log);
  }
}
