/** The verdict on an experiment, from the findings of concurrent observers. */
module Evaluator {
  import opened Wrappers

  datatype Source = Reconciliation | SteadyState | Collateral

  datatype CheckResult = CheckResult(passed: bool, checksRun: int, checksPassed: int)

  datatype ReconciliationResult = ReconciliationResult(allReconciled: bool, reconcileCycles: int, recoveryTime: int)

  datatype Finding = Finding(source: Source, operator: string, component: string, passed: bool,
                             checks: Option<CheckResult>, reconciliation: Option<ReconciliationResult>) {
    predicate Reconciles() {
      source.Reconciliation? && reconciliation.Some?
    }

    predicate Collapses() {
      source.Collateral? && !passed
    }
  }

  datatype Verdict = Resilient | Degraded | Failed | Inconclusive

  datatype Deviation =
    | PartialReconciliation
    | SlowRecovery(time: int, expected: int)
    | ExcessiveReconciliation(cycles: int, max: int)
    | CollateralDegradation(operator: string, component: string)

  datatype Evaluation = Evaluation(verdict: Verdict, recoveryTime: int, reconcileCycles: int, deviations: seq<Deviation>)

  // --- what the findings say, whatever their order ---

  predicate AllReconciled(findings: seq<Finding>) {
    forall f | f in findings && f.Reconciles() :: f.reconciliation.value.allReconciled
  }

  /** The largest of the recorded times or cycle counts, and 0. */
  ghost predicate IsWorst(findings: seq<Finding>, time: bool, n: int) {
    && n >= 0
    && (forall f | f in findings && f.Reconciles() :: n >= Measure(f, time))
    && (n == 0 || exists f :: f in findings && f.Reconciles() && n == Measure(f, time))
  }

  function Measure(f: Finding, time: bool): int
    requires f.Reconciles()
  {
    if time then f.reconciliation.value.recoveryTime else f.reconciliation.value.reconcileCycles
  }

  /** The checks of the first steady-state finding. */
  function PostCheck(findings: seq<Finding>): Option<CheckResult> {
    if findings == [] then None
    else if findings[0].source.SteadyState? then findings[0].checks
    else PostCheck(findings[1..])
  }

  function CollateralDeviations(findings: seq<Finding>): seq<Deviation> {
    if findings == [] then []
    else
      var last := findings[|findings| - 1];
      CollateralDeviations(findings[..|findings| - 1]) +
        if last.Collapses() then [CollateralDegradation(last.operator, last.component)] else []
  }

  function OwnDeviations(passed: bool, allReconciled: bool, cycles: int, time: int, timeout: int, maxCycles: int): seq<Deviation> {
    (if passed && !allReconciled then [PartialReconciliation] else []) +
    (if timeout > 0 && time > timeout then [SlowRecovery(time, timeout)] else []) +
    (if maxCycles > 0 && cycles > maxCycles then [ExcessiveReconciliation(cycles, maxCycles)] else [])
  }

  /** A failed post-check is a failure; otherwise any deviation degrades. */
  function Judge(passed: bool, deviations: seq<Deviation>): Verdict {
    if !passed then Failed else if deviations == [] then Resilient else Degraded
  }

  ghost predicate IsEvaluation(findings: seq<Finding>, timeout: int, maxCycles: int, e: Evaluation) {
    && IsWorst(findings, true, e.recoveryTime) && IsWorst(findings, false, e.reconcileCycles)
    && match PostCheck(findings)
       case None => e.verdict == Inconclusive && e.deviations == []
       case Some(check) =>
         && e.deviations == OwnDeviations(check.passed, AllReconciled(findings), e.reconcileCycles, e.recoveryTime, timeout, maxCycles)
                            + CollateralDeviations(findings)
         && e.verdict == Judge(check.passed, e.deviations)
  }

  class VerdictEvaluator {
    const maxReconcileCycles: int

    constructor (max: int)
      ensures maxReconcileCycles == max
    {
      maxReconcileCycles := max;
    }

    method ComputeVerdict(postCheck: CheckResult, allReconciled: bool, reconcileCycles: int, recoveryTime: int, timeout: int)
      returns (verdict: Verdict, deviations: seq<Deviation>)
      ensures deviations == OwnDeviations(postCheck.passed, allReconciled, reconcileCycles, recoveryTime, timeout, maxReconcileCycles)
      ensures verdict == Judge(postCheck.passed, deviations)
    {
      deviations := [];
      if postCheck.passed && allReconciled {
        verdict := Resilient;
      } else if postCheck.passed && !allReconciled {
        verdict := Degraded;
        deviations := deviations + [PartialReconciliation];
      } else {
        verdict := Failed;
      }
      if timeout > 0 && recoveryTime > timeout {
        if verdict == Resilient {
          verdict := Degraded;
        }
        deviations := deviations + [SlowRecovery(recoveryTime, timeout)];
      }
      if maxReconcileCycles > 0 && reconcileCycles > maxReconcileCycles {
        if verdict == Resilient {
          verdict := Degraded;
        }
        deviations := deviations + [ExcessiveReconciliation(reconcileCycles, maxReconcileCycles)];
      }
    }

    method Aggregate(findings: seq<Finding>) returns (allReconciled: bool, reconcileCycles: int, recoveryTime: int)
      ensures allReconciled == AllReconciled(findings)
      ensures IsWorst(findings, false, reconcileCycles) && IsWorst(findings, true, recoveryTime)
    {
      allReconciled, reconcileCycles, recoveryTime := true, 0, 0;
      for i := 0 to |findings|
        invariant allReconciled == AllReconciled(findings[..i])
        invariant IsWorst(findings[..i], false, reconcileCycles) && IsWorst(findings[..i], true, recoveryTime)
      {
        var f := findings[i];
        assert findings[..i + 1] == findings[..i] + [f];
        assert f in findings[..i + 1] && forall g :: g in findings[..i + 1] <==> g in findings[..i] || g == f;
        if f.source.Reconciliation? && f.reconciliation.Some? {
          if !f.reconciliation.value.allReconciled {
            allReconciled := false;
          }
          if f.reconciliation.value.reconcileCycles > reconcileCycles {
            reconcileCycles := f.reconciliation.value.reconcileCycles;
          }
          if f.reconciliation.value.recoveryTime > recoveryTime {
            recoveryTime := f.reconciliation.value.recoveryTime;
          }
        }
      }
      assert findings[..|findings|] == findings;
    }

    method FirstSteadyState(findings: seq<Finding>) returns (postCheck: Option<CheckResult>)
      ensures postCheck == PostCheck(findings)
    {
      postCheck := None;
      assert findings[0..] == findings;
      for i := 0 to |findings|
        invariant PostCheck(findings[i..]) == PostCheck(findings)
      {
        assert findings[i..][1..] == findings[i + 1..];
        if findings[i].source.SteadyState? {
          return findings[i].checks;
        }
      }
    }

    /** Collateral degradations are deviations, too, and downgrade Resilient only. */
    method AddCollateral(findings: seq<Finding>, ghost passed: bool, verdict: Verdict, own: seq<Deviation>)
      returns (verdict': Verdict, deviations: seq<Deviation>)
      requires verdict == Judge(passed, own)
      ensures deviations == own + CollateralDeviations(findings) && verdict' == Judge(passed, deviations)
    {
      verdict', deviations := verdict, own;
      for i := 0 to |findings|
        invariant deviations == own + CollateralDeviations(findings[..i])
        invariant verdict' == Judge(passed, deviations)
      {
        var f := findings[i];
        assert findings[..i + 1][..i] == findings[..i];
        if f.source.Collateral? && !f.passed {
          if verdict' == Resilient {
            verdict' := Degraded;
          }
          deviations := deviations + [CollateralDegradation(f.operator, f.component)];
        }
      }
      assert findings[..|findings|] == findings;
    }

    method EvaluateFromFindings(findings: seq<Finding>, timeout: int) returns (result: Evaluation)
      ensures IsEvaluation(findings, timeout, maxReconcileCycles, result)
    {
      var allReconciled, reconcileCycles, recoveryTime := Aggregate(findings);
      var postCheck := FirstSteadyState(findings);
      if postCheck.None? {
        return Evaluation(Inconclusive, recoveryTime, reconcileCycles, []);
      }
      var verdict, deviations := ComputeVerdict(postCheck.value, allReconciled, reconcileCycles, recoveryTime, timeout);
      verdict, deviations := AddCollateral(findings, postCheck.value.passed, verdict, deviations);
      result := Evaluation(verdict, recoveryTime, reconcileCycles, deviations);
    }
  }

  // --- Resilient ---

  /** Resilient means exactly that the post-check passed and nothing deviated: everything was reconciled,
      in time and within the allowed cycles, and no dependent was degraded. */
  lemma ResilientIff(findings: seq<Finding>, timeout: int, maxCycles: int, e: Evaluation)
    requires IsEvaluation(findings, timeout, maxCycles, e)
    ensures e.verdict == Resilient <==>
      && PostCheck(findings).Some? && PostCheck(findings).value.passed && AllReconciled(findings)
      && (timeout > 0 ==> forall f | f in findings && f.Reconciles() :: Measure(f, true) <= timeout)
      && (maxCycles > 0 ==> forall f | f in findings && f.Reconciles() :: Measure(f, false) <= maxCycles)
      && (forall f | f in findings :: !f.Collapses())
    ensures e.verdict == Resilient <==> PostCheck(findings).Some? && PostCheck(findings).value.passed && e.deviations == []
  {
    NoCollateralIff(findings);
  }

  lemma {:induction false} NoCollateralIff(findings: seq<Finding>)
    ensures CollateralDeviations(findings) == [] <==> forall f | f in findings :: !f.Collapses()
  {
    if findings != [] {
      var last := |findings| - 1;
      NoCollateralIff(findings[..last]);
      assert findings == findings[..last] + [findings[last]];
    }
  }

  /** What the verdict and the deviations mean, one by one. */
  lemma DeviationsTell(findings: seq<Finding>, timeout: int, maxCycles: int, e: Evaluation)
    requires IsEvaluation(findings, timeout, maxCycles, e)
    ensures e.verdict == Inconclusive <==> PostCheck(findings).None?
    ensures e.verdict == Failed <==> PostCheck(findings).Some? && !PostCheck(findings).value.passed
    ensures e.verdict == Inconclusive ==> e.deviations == []
    ensures e.verdict != Inconclusive ==> forall d :: d in e.deviations <==> IsDue(findings, timeout, maxCycles, e.verdict, d)
  {
    if PostCheck(findings).Some? {
      var own := OwnDeviations(PostCheck(findings).value.passed, AllReconciled(findings), e.reconcileCycles, e.recoveryTime, timeout, maxCycles);
      assert e.deviations == own + CollateralDeviations(findings);
      forall d ensures d in e.deviations <==> IsDue(findings, timeout, maxCycles, e.verdict, d) {
        CollateralTells(findings, d);
        if d.SlowRecovery? && IsWorst(findings, true, d.time) { WorstIsUnique(findings, true, d.time, e.recoveryTime); }
        if d.ExcessiveReconciliation? && IsWorst(findings, false, d.cycles) {
          WorstIsUnique(findings, false, d.cycles, e.reconcileCycles);
        }
      }
    }
  }

  /** What each deviation says of the findings. */
  ghost predicate IsDue(findings: seq<Finding>, timeout: int, maxCycles: int, verdict: Verdict, d: Deviation) {
    match d
    case PartialReconciliation => verdict != Failed && !AllReconciled(findings)
    case SlowRecovery(time, expected) => IsWorst(findings, true, time) && expected == timeout && time > expected > 0
    case ExcessiveReconciliation(cycles, max) => IsWorst(findings, false, cycles) && max == maxCycles && cycles > max > 0
    case CollateralDegradation(operator, component) => Collapsed(findings, operator, component)
  }

  lemma WorstIsUnique(findings: seq<Finding>, time: bool, m: int, n: int)
    requires IsWorst(findings, time, m) && IsWorst(findings, time, n)
    ensures m == n
  {
  }

  ghost predicate Collapsed(findings: seq<Finding>, operator: string, component: string) {
    exists f :: f in findings && f.Collapses() && f.operator == operator && f.component == component
  }

  lemma {:induction false} CollateralTells(findings: seq<Finding>, d: Deviation)
    ensures d in CollateralDeviations(findings) <==> d.CollateralDegradation? && Collapsed(findings, d.operator, d.component)
  {
    if findings != [] {
      var last := |findings| - 1;
      CollateralTells(findings[..last], d);
      assert findings == findings[..last] + [findings[last]];
    }
  }

  // --- order ---

  predicate Agree(f: Finding, g: Finding) {
    (f.checks.Some? <==> g.checks.Some?) && (f.checks.Some? ==> f.checks.value.passed == g.checks.value.passed)
  }

  /** Any two findings about the steady state say the same. */
  predicate SteadyStatesAgree(findings: seq<Finding>) {
    forall f, g | f in findings && g in findings && f.source.SteadyState? && g.source.SteadyState? :: Agree(f, g)
  }

  lemma {:induction false} PostCheckOf(findings: seq<Finding>, f: Finding) returns (g: Finding)
    requires f in findings && f.source.SteadyState?
    ensures g in findings && g.source.SteadyState? && PostCheck(findings) == g.checks
  {
    if findings[0].source.SteadyState? {
      g := findings[0];
    } else {
      assert findings == [findings[0]] + findings[1..];
      g := PostCheckOf(findings[1..], f);
    }
  }

  lemma {:induction false} NoPostCheck(findings: seq<Finding>)
    requires forall f | f in findings :: !f.source.SteadyState?
    ensures PostCheck(findings).None?
  {
    if findings != [] { NoPostCheck(findings[1..]); }
  }

  lemma {:induction false} CollateralOfConcat(a: seq<Finding>, b: seq<Finding>)
    ensures CollateralDeviations(a + b) == CollateralDeviations(a) + CollateralDeviations(b)
  {
    if b == [] {
      assert a + b == a;
    } else {
      var last := |b| - 1;
      assert (a + b)[..|a| + last] == a + b[..last];
      CollateralOfConcat(a, b[..last]);
    }
  }

  /** Moving a finding to the end. */
  lemma CollateralMoved(a: seq<Finding>, f: Finding, b: seq<Finding>)
    ensures multiset(CollateralDeviations(a + [f] + b)) == multiset(CollateralDeviations(a + b + [f]))
  {
    CollateralOfConcat(a + [f], b);
    CollateralOfConcat(a, [f]);
    CollateralOfConcat(a + b, [f]);
    CollateralOfConcat(a, b);
  }

  lemma Moved<T>(a: seq<T>, f: T, b: seq<T>)
    ensures multiset(a + [f] + b) == multiset(a + b + [f])
  {
  }

  lemma {:induction false} CollateralInAnyOrder(x: seq<Finding>, y: seq<Finding>)
    requires multiset(x) == multiset(y)
    ensures multiset(CollateralDeviations(x)) == multiset(CollateralDeviations(y))
  {
    if x == [] {
      assert |y| == |multiset(y)| == 0;
    } else {
      var last := |x| - 1;
      assert x == x[..last] + [x[last]];
      assert x[last] in multiset(y);
      var without := TakeOut(y, x[last]);
      assert multiset(x[..last]) == multiset(x) - multiset{x[last]};
      CollateralInAnyOrder(x[..last], without);
      CollateralOfConcat(x[..last], [x[last]]);
      CollateralOfConcat(without, [x[last]]);
    }
  }

  /** y without one occurrence of f; the collateral deviations are those of f coming last. */
  lemma TakeOut(y: seq<Finding>, f: Finding) returns (without: seq<Finding>)
    requires f in y
    ensures |without| == |y| - 1 && multiset(without) == multiset(y) - multiset{f}
    ensures multiset(CollateralDeviations(y)) == multiset(CollateralDeviations(without + [f]))
  {
    var i :| 0 <= i < |y| && y[i] == f;
    without := y[..i] + y[i + 1..];
    assert y == y[..i] + [f] + y[i + 1..];
    Moved(y[..i], f, y[i + 1..]);
    CollateralMoved(y[..i], f, y[i + 1..]);
    assert multiset(without) == multiset(without + [f]) - multiset{f};
  }

  lemma SameMembers(x: seq<Finding>, y: seq<Finding>)
    requires multiset(x) == multiset(y)
    ensures forall f :: f in x <==> f in y
  {
    forall f ensures f in x <==> f in y { assert f in multiset(x) <==> f in multiset(y); }
  }

  /** The same verdict and times, and the same deviations equally often. */
  predicate SameOutcome(e: Evaluation, e': Evaluation) {
    && e.verdict == e'.verdict && e.recoveryTime == e'.recoveryTime && e.reconcileCycles == e'.reconcileCycles
    && multiset(e.deviations) == multiset(e'.deviations)
  }

  /** If the steady-state findings agree, the order in which findings came in makes no difference. */
  lemma OrderDoesNotMatter(x: seq<Finding>, y: seq<Finding>, timeout: int, maxCycles: int, e: Evaluation, e': Evaluation)
    requires multiset(x) == multiset(y) && SteadyStatesAgree(x)
    requires IsEvaluation(x, timeout, maxCycles, e) && IsEvaluation(y, timeout, maxCycles, e')
    ensures SameOutcome(e, e')
  {
    SameMembers(x, y);
    CollateralInAnyOrder(x, y);
    if f :| f in x && f.source.SteadyState? {
      var g := PostCheckOf(x, f);
      var h := PostCheckOf(y, f);
      assert Agree(g, h);
    } else {
      NoPostCheck(x);
      NoPostCheck(y);
    }
    assert e.deviations == [] <==> |multiset(e.deviations)| == 0;
    assert e'.deviations == [] <==> |multiset(e'.deviations)| == 0;
  }

  ghost predicate OrderIsIrrelevant(findings: seq<Finding>, timeout: int, maxCycles: int) {
    forall x, y, e, e' {:trigger EvaluatedAs(findings, x, timeout, maxCycles, e), EvaluatedAs(findings, y, timeout, maxCycles, e')} |
      EvaluatedAs(findings, x, timeout, maxCycles, e) && EvaluatedAs(findings, y, timeout, maxCycles, e') :: SameOutcome(e, e')
  }

  /** e is the evaluation of the findings in the order x. */
  ghost predicate EvaluatedAs(findings: seq<Finding>, x: seq<Finding>, timeout: int, maxCycles: int, e: Evaluation) {
    multiset(x) == multiset(findings) && IsEvaluation(x, timeout, maxCycles, e)
  }

  lemma {:induction false} WorstExists(findings: seq<Finding>, time: bool) returns (n: int)
    ensures IsWorst(findings, time, n)
  {
    if findings == [] {
      n := 0;
    } else {
      var f, rest := findings[0], findings[1..];
      assert findings == [f] + rest;
      n := WorstExists(rest, time);
      if f.Reconciles() && Measure(f, time) > n { n := Measure(f, time); }
    }
  }

  lemma EvaluationExists(findings: seq<Finding>, timeout: int, maxCycles: int) returns (e: Evaluation)
    ensures IsEvaluation(findings, timeout, maxCycles, e)
  {
    var time := WorstExists(findings, true);
    var cycles := WorstExists(findings, false);
    match PostCheck(findings)
    case None =>
      e := Evaluation(Inconclusive, time, cycles, []);
    case Some(check) =>
      var deviations := OwnDeviations(check.passed, AllReconciled(findings), cycles, time, timeout, maxCycles)
                        + CollateralDeviations(findings);
      e := Evaluation(Judge(check.passed, deviations), time, cycles, deviations);
  }

  /** The findings in an order that begins with f, and their evaluation. */
  lemma BeginningWith(findings: seq<Finding>, timeout: int, maxCycles: int, f: Finding) returns (x: seq<Finding>, e: Evaluation)
    requires f in findings && f.source.SteadyState?
    ensures EvaluatedAs(findings, x, timeout, maxCycles, e) && PostCheck(x) == f.checks
  {
    var i :| 0 <= i < |findings| && findings[i] == f;
    x := [f] + findings[..i] + findings[i + 1..];
    assert findings == findings[..i] + [f] + findings[i + 1..];
    e := EvaluationExists(x, timeout, maxCycles);
  }

  /** The order of the findings is irrelevant to the outcome if and only if those about the steady state
      agree on whether there were checks and whether they passed. */
  lemma OrderIsIrrelevantIff(findings: seq<Finding>, timeout: int, maxCycles: int)
    ensures OrderIsIrrelevant(findings, timeout, maxCycles) <==> SteadyStatesAgree(findings)
  {
    if SteadyStatesAgree(findings) {
      forall x, y, e, e'
        | EvaluatedAs(findings, x, timeout, maxCycles, e) && EvaluatedAs(findings, y, timeout, maxCycles, e')
        ensures SameOutcome(e, e')
      {
        SameMembers(x, findings);
        OrderDoesNotMatter(x, y, timeout, maxCycles, e, e');
      }
    } else {
      var f, g :| f in findings && g in findings && f.source.SteadyState? && g.source.SteadyState? && !Agree(f, g);
      var x, e := BeginningWith(findings, timeout, maxCycles, f);
      var y, e' := BeginningWith(findings, timeout, maxCycles, g);
      assert e.verdict != e'.verdict;
    }
  }

  // --- monotonicity ---

  /** g is f or worse: less reconciled, slower, more cycles, or a check that failed instead of passed. */
  predicate NoBetter(g: Finding, f: Finding) {
    && g.source == f.source && (g.passed ==> f.passed)
    && (f.checks.Some? <==> g.checks.Some?) && (g.checks.Some? && g.checks.value.passed ==> f.checks.value.passed)
    && (f.reconciliation.Some? ==>
          && g.reconciliation.Some? && (g.reconciliation.value.allReconciled ==> f.reconciliation.value.allReconciled)
          && g.reconciliation.value.reconcileCycles >= f.reconciliation.value.reconcileCycles
          && g.reconciliation.value.recoveryTime >= f.reconciliation.value.recoveryTime)
  }

  function Severity(v: Verdict): nat {
    match v
    case Resilient => 0
    case Degraded => 1
    case Failed => 2
    case Inconclusive => 3
  }

  lemma {:induction false} WorsePostCheck(x: seq<Finding>, y: seq<Finding>)
    requires |x| == |y| && forall i | 0 <= i < |x| :: NoBetter(y[i], x[i])
    ensures PostCheck(x).Some? <==> PostCheck(y).Some?
    ensures PostCheck(y).Some? && PostCheck(y).value.passed ==> PostCheck(x).value.passed
  {
    if x != [] { WorsePostCheck(x[1..], y[1..]); }
  }

  /** Worsening any findings never improves the verdict. */
  lemma WorseFindingsNeverHelp(x: seq<Finding>, y: seq<Finding>, timeout: int, maxCycles: int, e: Evaluation, e': Evaluation)
    requires |x| == |y| && forall i | 0 <= i < |x| :: NoBetter(y[i], x[i])
    requires IsEvaluation(x, timeout, maxCycles, e) && IsEvaluation(y, timeout, maxCycles, e')
    ensures Severity(e.verdict) <= Severity(e'.verdict)
    ensures e.verdict == Inconclusive <==> e'.verdict == Inconclusive
  {
    WorsePostCheck(x, y);
    ResilientIff(x, timeout, maxCycles, e);
    ResilientIff(y, timeout, maxCycles, e');
    if e'.verdict == Resilient {
      forall f | f in x ensures exists g :: g in y && NoBetter(g, f) {
        var i :| 0 <= i < |x| && x[i] == f;
        assert y[i] in y;
      }
    }
  }

  /** Neither does one more finding about reconciliation or a dependent. */
  lemma MoreFindingsNeverHelp(x: seq<Finding>, f: Finding, timeout: int, maxCycles: int, e: Evaluation, e': Evaluation)
    requires !f.source.SteadyState?
    requires IsEvaluation(x, timeout, maxCycles, e) && IsEvaluation(x + [f], timeout, maxCycles, e')
    ensures Severity(e.verdict) <= Severity(e'.verdict)
  {
    PostCheckExtended(x, f);
    ResilientIff(x, timeout, maxCycles, e);
    ResilientIff(x + [f], timeout, maxCycles, e');
    assert forall g | g in x :: g in x + [f];
  }

  lemma {:induction false} PostCheckExtended(x: seq<Finding>, f: Finding)
    requires !f.source.SteadyState?
    ensures PostCheck(x + [f]) == PostCheck(x)
  {
    if x == [] {
      assert (x + [f])[1..] == [];
    } else {
      assert (x + [f])[1..] == x[1..] + [f];
      PostCheckExtended(x[1..], f);
    }
  }
}
