/** The lifecycle of a command-line run: lock, check, inject, revert, check, clean up, unlock. */
module Lifecycle {
  import opened Wrappers

  datatype Event =
    | Acquire(ok: bool, duration: nat)
    | PreCheck(passed: bool)
    | Inject(ok: bool, cleanup: bool)       // cleanup: it returned a cleanup function
    | Wait(time: nat, finished: bool)       // cut short if the context is cancelled
    | Cleanup(ok: bool)
    | Renew(ok: bool)
    | PostCheck(ok: bool)
    | Release

  datatype Phase = Pending | SteadyStatePre | Injecting | Observing | SteadyStatePost | Complete | Aborted

  datatype Plan = Plan(valid: bool, dryRun: bool, ttl: nat, recoveryTimeout: nat, retryInterval: nat)

  // --- what an observer of the run keeps track of ---

  /** unreverted: a cleanup function exists and has not succeeded.  attempts: calls of it.
      lost: the lock could not be renewed while unreverted; attemptsLost: calls of it since.
      clean: time waited since the fault went, or without a TTL since it came.
      unrefreshed: time waited since the lock was acquired or renewed, for lease; longest: the most it ever was. */
  datatype Account = Account(acquired: bool, injected: bool, unreverted: bool, attempts: nat, lost: bool, attemptsLost: nat,
                             clean: nat, lease: nat, unrefreshed: nat, longest: nat, postChecked: bool, released: nat)

  const OPENING := Account(false, false, false, 0, false, 0, 0, 0, 0, 0, false, 0)

  function Book(a: Account, e: Event): Account {
    match e
    case Acquire(ok, duration) => a.(acquired := ok, lease := duration)
    case PreCheck(_) => a
    case Inject(ok, cleanup) => a.(injected := ok && cleanup, unreverted := ok && cleanup, clean := 0)
    case Wait(time, finished) =>
      a.(clean := if finished then a.clean + time else a.clean, unrefreshed := a.unrefreshed + time,
         longest := if a.unrefreshed + time > a.longest then a.unrefreshed + time else a.longest)
    case Cleanup(ok) =>
      a.(attempts := a.attempts + 1, attemptsLost := if a.lost then a.attemptsLost + 1 else 0,
         unreverted := a.unreverted && !ok, clean := if ok then 0 else a.clean)
    case Renew(ok) => a.(lost := a.lost || (a.unreverted && !ok), unrefreshed := if ok then 0 else a.unrefreshed)
    case PostCheck(_) => a.(postChecked := true)
    case Release => a.(released := a.released + 1)
  }

  function Books(log: seq<Event>): Account {
    if log == [] then OPENING else Book(Books(log[..|log| - 1]), log[|log| - 1])
  }

  /** How far the run has come.  checked: what the pre-check said.  tried, started: an injection was
      attempted, and succeeded; since: time waited from then on.  postOk: the post-check worked.
      retrying: a cleanup was called; rested: time waited since; owes: the lock is to be renewed after it.  failed: there is a reason to abort. */
  datatype Course = Course(checked: Option<bool>, tried: bool, started: bool, since: nat, retrying: bool, rested: nat, owes: bool,
                           postOk: bool, failed: bool)

  const BEFORE := Course(None, false, false, 0, false, 0, false, false, false)

  function Advance(c: Course, unreverted: bool, e: Event): Course {
    match e
    case Acquire(ok, _) => c.(failed := !ok)
    case PreCheck(passed) => c.(checked := Some(passed), failed := !passed)
    case Inject(ok, _) => c.(tried := true, started := ok, since := 0, failed := !ok)
    case Wait(time, finished) => if finished then c.(since := c.since + time, rested := c.rested + time) else c.(failed := true)
    case Cleanup(_) => c.(retrying := true, rested := 0, owes := true)
    case Renew(ok) => c.(owes := false, failed := unreverted && !ok)
    case PostCheck(ok) => c.(postOk := ok, failed := !ok)
    case Release => c
  }

  function CourseOf(log: seq<Event>): Course {
    if log == [] then BEFORE
    else Advance(CourseOf(log[..|log| - 1]), Books(log[..|log| - 1]).unreverted, log[|log| - 1])
  }

  lemma BookLast(log: seq<Event>, e: Event)
    ensures Books(log + [e]) == Book(Books(log), e)
    ensures CourseOf(log + [e]) == Advance(CourseOf(log), Books(log).unreverted, e)
  {
    assert (log + [e])[..|log|] == log;
  }

  /** Event e may come after the events booked in a: locking once and first; injecting once, under
      the lock; cleanup only of an injected fault that is not reverted, under the lock, and only once
      more when the lock is lost; no post-check of a fault with a TTL before it has been gone for the
      recovery time, nor of one without before it has been there as long; and no unlocking before a cleanup. */
  predicate Proper(p: Plan, a: Account, e: Event) {
    match e
    case Acquire(_, _) => a == OPENING && p.valid && !p.dryRun
    case PreCheck(_) => a.acquired && a.released == 0 && !a.injected
    case Inject(_, _) => a.acquired && a.released == 0 && !a.injected
    case Wait(_, _) => a.acquired && a.released == 0
    case Cleanup(_) => a.unreverted && a.released == 0 && (a.lost ==> a.attemptsLost == 0)
    case Renew(_) => a.acquired && a.released == 0
    case PostCheck(_) => a.acquired && a.released == 0 && !a.postChecked && a.clean >= p.recoveryTimeout
                         && (p.ttl > 0 ==> !a.unreverted) && (p.ttl == 0 ==> a.attempts == 0)
    case Release => a.acquired && a.released == 0 && (a.injected ==> a.attempts > 0)
  }

  /** Event e may come next: one pre-check, then, if it passed, one injection, then, until something fails,
      waits, renewals and one post-check.  No cleanup before the TTL has passed, nor within a retry interval of
      the last, except when something has failed; and the lock is renewed after a cleanup before the run goes on. */
  predicate Timely(p: Plan, c: Course, e: Event) {
    match e
    case Acquire(_, _) => c == BEFORE
    case PreCheck(_) => c.checked.None? && !c.tried
    case Inject(_, _) => c.checked == Some(true) && !c.tried
    case Wait(_, _) => c.started && !c.failed && !c.owes
    case Cleanup(_) => c.failed || (c.since >= p.ttl && (c.retrying ==> c.rested >= p.retryInterval))
    case Renew(_) => c.started && !c.failed
    case PostCheck(_) => c.started && !c.failed && !c.owes
    case Release => true
  }

  predicate Orderly(p: Plan, log: seq<Event>) {
    log == [] ||
    var before, e := log[..|log| - 1], log[|log| - 1];
    Orderly(p, before) && Proper(p, Books(before), e) && Timely(p, CourseOf(before), e)
  }

  lemma OrderlyLast(p: Plan, log: seq<Event>, e: Event)
    ensures Orderly(p, log + [e]) <==> Orderly(p, log) && Proper(p, Books(log), e) && Timely(p, CourseOf(log), e)
  {
    assert (log + [e])[..|log|] == log;
  }

  // --- what an orderly log means ---

  lemma {:induction false} BooksAgree(p: Plan, log: seq<Event>)
    requires Orderly(p, log)
    ensures Consistent(Books(log))
  {
    if log != [] {
      BooksAgree(p, log[..|log| - 1]);
      BookIsConsistent(p, Books(log[..|log| - 1]), log[|log| - 1]);
    }
  }

  /** There is no cleanup without an injection, and no release without an acquisition. */
  predicate Consistent(a: Account) {
    && (a.unreverted ==> a.injected) && (a.injected ==> a.acquired) && (a.attempts > 0 ==> a.injected)
    && (a.released > 0 ==> a.acquired) && a.released <= 1
  }

  lemma BookIsConsistent(p: Plan, a: Account, e: Event)
    requires Consistent(a) && Proper(p, a, e)
    ensures Consistent(Book(a, e))
  {
  }

  lemma {:induction false} BooksKeep(p: Plan, log: seq<Event>, i: nat)
    requires Orderly(p, log) && i < |log|
    ensures log[i] == Cleanup(true) ==> !Books(log).unreverted && Books(log).injected
    ensures log[i].Release? ==> Books(log).released > 0
    ensures log[i].Cleanup? ==> Books(log).injected
    decreases |log|
  {
    var before := log[..|log| - 1];
    BooksAgree(p, before);
    if i < |before| { BooksKeep(p, before, i); }
  }

  /** In an orderly log no cleanup follows a successful one, and none follows the release;
      there is at most one release. */
  lemma NothingAfterSuccess(p: Plan, log: seq<Event>, i: nat, j: nat)
    requires Orderly(p, log) && i < j < |log|
    ensures log[i] == Cleanup(true) ==> !log[j].Cleanup?
    ensures log[i].Release? ==> !log[j].Cleanup? && !log[j].Release?
  {
    OrderlyPrefix(p, log, j + 1);
    var before := log[..j];
    assert log[..j + 1] == before + [log[j]];
    OrderlyLast(p, before, log[j]);
    BooksKeep(p, before, i);
  }

  lemma {:induction false} OrderlyPrefix(p: Plan, log: seq<Event>, n: nat)
    requires Orderly(p, log) && n <= |log|
    ensures Orderly(p, log[..n])
    decreases |log|
  {
    if n < |log| {
      OrderlyPrefix(p, log[..|log| - 1], n);
      assert log[..|log| - 1][..n] == log[..n];
    } else {
      assert log[..n] == log;
    }
  }

  function Count(log: seq<Event>, what: Event -> bool): nat {
    if log == [] then 0 else Count(log[..|log| - 1], what) + if what(log[|log| - 1]) then 1 else 0
  }

  /** The books of an orderly log count its events: one injection at most, acquired once at most. */
  lemma {:induction false} BooksCount(p: Plan, log: seq<Event>)
    requires Orderly(p, log)
    ensures Books(log).attempts == Count(log, (e: Event) => e.Cleanup?)
    ensures Books(log).released == Count(log, (e: Event) => e.Release?)
    ensures Count(log, e => e == Inject(true, true)) == if Books(log).injected then 1 else 0
    ensures Count(log, (e: Event) => e.Acquire? && e.ok) == if Books(log).acquired then 1 else 0
  {
    if log != [] { BooksCount(p, log[..|log| - 1]); }
  }

  /** A reason to abort. */
  predicate Fails(e: Event) {
    match e
    case Acquire(ok, _) => !ok
    case PreCheck(passed) => !passed
    case Inject(ok, _) => !ok
    case Wait(_, finished) => !finished
    case Renew(ok) => !ok
    case PostCheck(ok) => !ok
    case _ => false
  }

  /** The course of an orderly log says what was in it. */
  ghost predicate Tells(c: Course, log: seq<Event>) {
    && (c.checked == Some(true) <==> PreCheck(true) in log) && (c.checked == Some(false) <==> PreCheck(false) in log)
    && (c.tried ==> c.checked == Some(true)) && (c.started ==> c.tried)
    && (c.postOk ==> PostCheck(true) in log && c.started) && (c.failed ==> exists e :: e in log && Fails(e))
    && (c.checked == Some(false) ==> c.failed && !c.started)
  }

  lemma {:induction false} CourseTells(p: Plan, log: seq<Event>)
    requires Orderly(p, log)
    ensures Tells(CourseOf(log), log)
  {
    if log != [] {
      var front, e := log[..|log| - 1], log[|log| - 1];
      CourseTells(p, front);
      AdvanceTells(p, front, Books(front), CourseOf(front), e);
      assert log == front + [e];
    }
  }

  lemma AdvanceTells(p: Plan, log: seq<Event>, a: Account, c: Course, e: Event)
    requires Tells(c, log) && Timely(p, c, e)
    ensures Tells(Advance(c, a.unreverted, e), log + [e])
  {
    assert e in log + [e] && forall x | x in log :: x in log + [e];
    assert forall x | x in log + [e] :: x in log || x == e;
    if c.failed {
      var x :| x in log && Fails(x);
      assert x in log + [e];
    }
  }

  /** There is one post-check at most, and the course says whether it worked. */
  lemma {:induction false} PostChecksOnce(p: Plan, log: seq<Event>)
    requires Orderly(p, log)
    ensures Books(log).postChecked <==> PostCheck(true) in log || PostCheck(false) in log
    ensures CourseOf(log).postOk <==> PostCheck(true) in log
  {
    if log != [] {
      var front, e := log[..|log| - 1], log[|log| - 1];
      PostChecksOnce(p, front);
      assert log == front + [e];
    }
  }

  /** The fault is injected after a pre-check that passed only; after one that failed only the lock is
      released. */
  lemma InjectsAfterCheck(p: Plan, log: seq<Event>, i: nat)
    requires Orderly(p, log) && i < |log|
    ensures log[i].Inject? ==> PreCheck(true) in log[..i]
    ensures PreCheck(false) in log[..i] ==> log[i].Release?
  {
    OrderlyPrefix(p, log, i + 1);
    var before := log[..i];
    assert log[..i + 1] == before + [log[i]];
    OrderlyLast(p, before, log[i]);
    CourseTells(p, before);
    NoFaultNoCleanup(p, before);
  }

  lemma {:induction false} NoFaultNoCleanup(p: Plan, log: seq<Event>)
    requires Orderly(p, log)
    ensures Books(log).unreverted ==> CourseOf(log).started
  {
    if log != [] {
      var front, e := log[..|log| - 1], log[|log| - 1];
      NoFaultNoCleanup(p, front);
      OneMoreFault(p, Books(front), CourseOf(front), e);
    }
  }

  lemma OneMoreFault(p: Plan, a: Account, c: Course, e: Event)
    requires Proper(p, a, e) && Timely(p, c, e) && (a.unreverted ==> c.started)
    ensures Book(a, e).unreverted ==> Advance(c, a.unreverted, e).started
  {
  }

  // --- the orchestrator ---

  class Orchestrator {
    ghost var log: seq<Event>

    constructor ()
      ensures log == []
    {
      log := [];
    }

    ghost method Note(p: Plan, e: Event)
      requires Orderly(p, log) && Proper(p, Books(log), e) && Timely(p, CourseOf(log), e)
      modifies this`log
      ensures Orderly(p, log) && Books(log) == Book(old(Books(log)), e)
      ensures CourseOf(log) == Advance(old(CourseOf(log)), old(Books(log)).unreverted, e) && log == old(log) + [e]
    {
      OrderlyLast(p, log, e);
      BookLast(log, e);
      log := log + [e];
    }

    /** Waits out the TTL and calls the cleanup until it succeeds, the lock is lost, or the context is
        cancelled, which happens at the latest after `patience` retries.  Returns what is left to clean up. */
    method RevertAtTTL(p: Plan, cleanup: bool, patience: nat) returns (left: bool, ok: bool)
      requires Orderly(p, log) && Fresh(p, Books(log)) && Books(log).injected == cleanup && JustStarted(CourseOf(log))
      modifies this`log
      ensures Orderly(p, log) && Running(Books(log)) && Books(log).injected == cleanup
      ensures Books(log).unreverted == left && (ok ==> !left)
      ensures (ok <==> !CourseOf(log).failed) && (ok ==> !CourseOf(log).owes)
      ensures CourseOf(log).started && !CourseOf(log).postOk
      ensures left && Books(log).lost ==> Books(log).attemptsLost == 0
      ensures !Books(log).postChecked && old(Books(log)).clean <= Books(log).clean
      ensures Short(p, Books(log)) && Books(log).unrefreshed <= p.ttl + p.retryInterval
    {
      var finished: bool := *;
      Note(p, Wait(p.ttl, finished));
      if !finished {
        return cleanup, false;
      }
      left := cleanup;
      var retries := patience;
      while left
        invariant Orderly(p, log) && Books(log).injected == cleanup && Books(log).unreverted == left
        invariant Awaiting(p, Books(log), CourseOf(log)) && Books(log).unrefreshed <= p.ttl + p.retryInterval
        decreases retries
      {
        var reverted, renewed := AttemptCleanup(p);
        if reverted {
          return false, true;
        }
        if !renewed {
          return left, false;
        }
        finished := *;
        if retries == 0 {
          finished := false;
        } else {
          retries := retries - 1;
        }
        Note(p, Wait(p.retryInterval, finished));
        if !finished {
          return left, false;
        }
      }
      ok := true;
    }

    /** A call of the cleanup, and the renewal of the lock that follows it. */
    method AttemptCleanup(p: Plan) returns (reverted: bool, renewed: bool)
      requires Orderly(p, log) && Awaiting(p, Books(log), CourseOf(log)) && Books(log).unreverted && Books(log).injected
      modifies this`log
      ensures Orderly(p, log) && Running(Books(log)) && Books(log).injected && Books(log).attempts > 0
      ensures Books(log).unreverted == !reverted && !Books(log).postChecked && Short(p, Books(log))
      ensures CourseOf(log) == old(CourseOf(log)).(retrying := true, rested := 0, owes := false, failed := !reverted && !renewed)
      ensures Books(log).lost == CourseOf(log).failed && Books(log).attemptsLost == 0
      ensures reverted ==> Books(log).unrefreshed <= old(Books(log)).unrefreshed
      ensures !reverted && renewed ==> Books(log).unrefreshed == 0 && Books(log).clean == old(Books(log)).clean
      ensures !reverted ==> Books(log).unrefreshed <= old(Books(log)).unrefreshed && Books(log).clean == old(Books(log)).clean
    {
      reverted, renewed := *, *;
      Note(p, Cleanup(reverted));
      Note(p, Renew(renewed));
    }

    /** The steps after a successful injection, up to the deferred cleanup. */
    method ObserveAndCheck(p: Plan, cleanup: bool, patience: nat) returns (left: bool, phase: Phase)
      requires Orderly(p, log) && Fresh(p, Books(log)) && Books(log).injected == cleanup && JustStarted(CourseOf(log))
      modifies this`log
      ensures Orderly(p, log) && Running(Books(log)) && Books(log).injected == cleanup
      ensures Books(log).unreverted == left
      ensures left && Books(log).lost ==> Books(log).attemptsLost == 0
      ensures phase.Complete? ==> Books(log).postChecked
      ensures phase.Complete? || phase.Aborted?
      ensures Decides(CourseOf(log), phase) && (CourseOf(log).failed || p.ttl > 0 || Books(log).postChecked)
      ensures left && !CourseOf(log).failed ==> p.ttl == 0 && !CourseOf(log).retrying
      ensures Short(p, Books(log))
    {
      left := cleanup;
      if p.ttl > 0 {
        var ok;
        left, ok := RevertAtTTL(p, cleanup, patience);
        if !ok {
          return left, Aborted;
        }
      }
      var finished: bool := *;
      Note(p, Wait(p.recoveryTimeout, finished));
      if !finished {
        return left, Aborted;
      }
      var checked: bool := *;
      Note(p, PostCheck(checked));
      phase := if checked then Complete else Aborted;
    }

    /** One run.  Whatever fails or is cancelled: its log is orderly, an injected fault with a cleanup
        gets at least one attempt to clean it up, and the lock is released exactly if it was acquired. */
    method Run(p: Plan, patience: nat) returns (phase: Phase)
      requires log == []
      modifies this`log
      ensures Orderly(p, log)
      ensures Books(log).injected ==> Books(log).attempts > 0
      ensures Books(log).released == if Books(log).acquired then 1 else 0
      ensures !p.valid || p.dryRun ==> log == []
      ensures phase.Complete? || phase.Aborted?
      ensures p.valid && !p.dryRun ==> Decides(CourseOf(log), phase) && (phase.Complete? <==> PostCheck(true) in log)
      ensures p.valid && p.dryRun ==> phase.Complete?
      ensures !p.valid ==> phase.Aborted?
      ensures Short(p, Books(log))
    {
      if !p.valid {
        return Aborted;
      }
      if p.dryRun {
        return Complete;
      }
      var leaseDuration := LeaseDuration(p);
      var ok: bool := *;
      Note(p, Acquire(ok, leaseDuration));
      if !ok {
        PostChecksOnce(p, log);
        return Aborted;
      }
      phase := CheckAndInject(p, patience);
      Note(p, Release);
      PostChecksOnce(p, log);
    }

    method CheckAndInject(p: Plan, patience: nat) returns (phase: Phase)
      requires Orderly(p, log) && Books(log) == OPENING.(acquired := true, lease := LeaseDuration(p)) && CourseOf(log) == BEFORE
      modifies this`log
      ensures Orderly(p, log) && Running(Books(log))
      ensures Books(log).injected ==> Books(log).attempts > 0
      ensures phase.Complete? ==> Books(log).postChecked
      ensures phase.Complete? || phase.Aborted?
      ensures Decides(CourseOf(log), phase)
      ensures Short(p, Books(log))
    {
      var passed: bool := *;
      Note(p, PreCheck(passed));
      if !passed {
        return Aborted;
      }
      var ok: bool, cleanup: bool := *, *;
      Note(p, Inject(ok, cleanup));
      if !ok {
        return Aborted;
      }
      cleanup, phase := ObserveAndCheck(p, cleanup, patience);
      if cleanup {
        var reverted: bool := *;
        Note(p, Cleanup(reverted));
      }
    }
  }

  /** The lock is held. */
  predicate Running(a: Account) {
    a.acquired && a.released == 0 && (a.injected && !a.unreverted ==> a.attempts > 0)
  }

  predicate Fresh(p: Plan, a: Account) {
    && Running(a) && a.attempts == 0 && a.attemptsLost == 0 && !a.lost && !a.postChecked && a.clean == 0 && a.unreverted == a.injected
    && a.unrefreshed == 0 && a.longest == 0 && a.lease == LeaseDuration(p)
  }

  /** The TTL has passed, and nothing has failed. */
  predicate Awaiting(p: Plan, a: Account, c: Course) {
    && Running(a) && !a.lost && a.attemptsLost == 0 && !a.postChecked && Short(p, a)
    && c.started && !c.failed && !c.owes && !c.postOk && c.since >= p.ttl && (c.retrying ==> c.rested >= p.retryInterval)
  }

  predicate JustStarted(c: Course) {
    c.started && !c.failed && !c.owes && c.since == 0 && !c.postOk && !c.retrying
  }

  /** Complete is what a run is if and only if its post-check worked; Aborted, for a reason. */
  predicate Decides(c: Course, phase: Phase) {
    (phase.Complete? <==> c.postOk) && (phase.Aborted? ==> c.failed)
  }

  function LeaseDuration(p: Plan): nat {
    if p.ttl > 0 then p.ttl + 2 * p.recoveryTimeout else 2 * p.recoveryTimeout
  }

  /** The waits between two refreshments of the lock fit in the lease, if a retry interval fits in
      the recovery time. */
  predicate Short(p: Plan, a: Account) {
    p.retryInterval <= p.recoveryTimeout && a.acquired ==> a.longest <= a.lease && a.lease >= p.ttl + 2 * p.recoveryTimeout
  }
}
