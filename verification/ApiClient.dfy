/** The API server as one caller sees it.  Before every call takes effect the rest of
    the world may have moved, within what the caller can rely on; a write is applied,
    refused, or applied with its reply lost.  Everything that happens is recorded in
    `trace`, and whatever the caller itself changes there is an enabled effect. */
module ApiClient {
  import opened Wrappers
  import opened ExperimentWorld
  import opened ProtocolInvariant
  import opened LocalLock

  datatype ApiError = NoError | NotFound | Conflict | AlreadyExists | Transport

  /** The calls a caller makes, in order, with what it was told. */
  datatype Call =
    | Read(err: ApiError, x: Option<Experiment>)
    | StatusUpdate(st: Status, ok: bool)
    | FinalizerUpdate(present: bool, ok: bool)
    | Inject(ok: bool)
    | Revert(ok: bool)
    | Acquire(op: Operator, duration: int, result: LockResult)
    | Renew(op: Operator, result: LockResult)
    | Release(op: Operator, result: LockResult)

  /** The object of experiment e is as its worker left it, and the world moved forward. */
  predicate SameObject(e: Name, w: World, w': World) {
    && w'.exps.Keys == w.exps.Keys && w.now <= w'.now && w.rev <= w'.rev && SameBeginning(e, w, w')
    && (e in w.exps ==> SameOwnStatus(w, w', e))
  }

  /** The requests on leases that a caller makes, and their outcome. */
  datatype Request = Request(verb: Verb, err: ApiError)
  datatype Verb = Creation | Lookup | Update | Deletion

  /** The last new request failed, other than by an answer that the caller acts on. */
  predicate LastFailed(before: seq<Request>, after: seq<Request>) {
    |before| < |after| && IsFailure(after[|after| - 1])
  }

  predicate IsFailure(q: Request) {
    !q.err.NoError? && q != Request(Creation, AlreadyExists) && q != Request(Lookup, NotFound)
  }

  /** No reconcile of e began. */
  predicate SameBeginning(e: Name, w: World, w': World) {
    (e in w.began <==> e in w'.began) && (e in w.began ==> w'.began[e] == w.began[e])
  }

  /** Nothing happened to the fault of experiment e. */
  predicate SameFault(e: Name, w: World, w': World) {
    && w'.exps.Keys == w.exps.Keys && SameHistory(e, w, w')
    && (e in w'.active <==> e in w.active)
    && (e in w'.injected <==> e in w.injected)
    && (e in w'.revertFailed <==> e in w.revertFailed)
    && w.now <= w'.now && w.rev <= w'.rev
  }

  /** What the protocol demands before the finalizer of x is added or removed. */
  predicate MayStoreFinalizer(e: Name, w: World, x: Experiment, present: bool) {
    if present then
      !x.deleting && x.status.phase.Injecting? && x.status.injectionStartedAt.Some?
    else
      x.finalizer &&
      if x.deleting then e !in w.active
      else
        || x.status.phase.Complete?
        || (x.status.phase.Aborted? && (e in w.active ==> e in w.revertFailed))
  }

  /** Between two recorded states lies an effect of the caller (Some) or the work of others (None). */
  ghost predicate Moves(e: Name, w: World, w': World, move: Option<Effect>) {
    match move
    case Some(eff) => Enabled(w, e, eff) && w' == Apply(w, e, eff)
    case None => Rely(e, w, w')
  }

  ghost predicate MovesAt(e: Name, trace: seq<World>, moves: seq<Option<Effect>>, i: nat)
    requires i < |moves| && |trace| == |moves| + 1
  {
    Moves(e, trace[i], trace[i + 1], moves[i])
  }

  ghost predicate Chained(e: Name, trace: seq<World>, moves: seq<Option<Effect>>) {
    && |trace| == |moves| + 1
    && forall i: nat {:trigger MovesAt(e, trace, moves, i)} | i < |moves| :: MovesAt(e, trace, moves, i)
  }

  lemma ChainGrows(e: Name, trace: seq<World>, moves: seq<Option<Effect>>, w: World, move: Option<Effect>)
    requires Chained(e, trace, moves) && Moves(e, trace[|trace| - 1], w, move)
    ensures Chained(e, trace + [w], moves + [move])
  {
    var trace', moves' := trace + [w], moves + [move];
    forall i: nat | i < |moves'| ensures MovesAt(e, trace', moves', i) {
      if i < |moves| {
        assert MovesAt(e, trace, moves, i);
        assert trace'[i] == trace[i] && trace'[i + 1] == trace[i + 1];
      } else {
        assert trace'[i] == trace[|trace| - 1] && trace'[i + 1] == w;
      }
    }
  }

  class Client {
    const me: Name
    var w: World
    ghost var trace: seq<World>
    ghost var moves: seq<Option<Effect>>
    ghost var calls: seq<Call>
    ghost var requests: seq<Request>

    ghost predicate Valid()
      reads this
    {
      && |trace| > 0 && trace[|trace| - 1] == w
      && Inv(w) && Timely(w)
      && Chained(me, trace, moves)
    }

    /** x is the object as the caller last saw it: it is still the stored one, or its
        resource version is out of date.  The caller is the only writer of its status. */
    predicate Known(x: Experiment)
      reads this
    {
      && me in w.exps && me in w.began && x.rv <= w.rev && !x.gone
      && w.exps[me].status == x.status && w.exps[me].finalizer == x.finalizer
      && (x.deleting ==> w.exps[me].deleting)
      && x.status.observedGeneration <= x.generation <= w.exps[me].generation
      && (x.status.injectionStartedAt.Some? ==> w.exps[me].spec == x.spec)
      && (w.exps[me] == x || w.exps[me].rv > x.rv)
    }

    /** The lease is ours for as long as the object is the one last seen. */
    ghost predicate HeldWhileCurrent(x: Experiment)
      reads this
    {
      me in w.exps && w.exps[me] == x ==> w.HeldBy(x.spec.operator, me)
    }

    predicate KnownLease(op: Operator, l: Lease)
      reads this
    {
      && l.rv <= w.rev
      && (op in w.leases ==> w.leases[op] == l || w.leases[op].rv > l.rv)
    }

    constructor (me: Name, w: World)
      requires Inv(w) && Timely(w)
      ensures Valid() && this.me == me && this.w == w && calls == []
    {
      this.me, this.w := me, w;
      trace, moves, calls, requests := [w], [], [], [];
    }

    /** Anything the others may do. */
    method Interfere()
      requires Valid()
      modifies this`w, this`trace, this`moves
      ensures Valid() && trace == old(trace) + [w] && moves == old(moves) + [None] && Rely(me, old(w), w)
    {
      RelyIsReflexive(me, w);
      var w': World := *;
      if Rely(me, w, w') && Inv(w') && Timely(w') {
        w := w';
      }
      ChainGrows(me, trace, moves, w, None);
      trace, moves := trace + [w], moves + [None];
    }

    /** One effect of the caller. */
    method Commit(eff: Effect)
      requires Valid() && Enabled(w, me, eff) && (eff.WriteStatus? ==> Timely(Apply(w, me, eff)))
      modifies this`w, this`trace, this`moves
      ensures Valid() && w == Apply(old(w), me, eff) && trace == old(trace) + [w] && moves == old(moves) + [Some(eff)]
    {
      StepKeepsInv(w, By(me, eff));
      if !eff.WriteStatus? { OwnStepIsTimely(w, me, eff); }
      ChainGrows(me, trace, moves, Apply(w, me, eff), Some(eff));
      w := Apply(w, me, eff);
      trace, moves := trace + [w], moves + [Some(eff)];
    }

    ghost method NoteRequest(verb: Verb, err: ApiError)
      modifies this`requests
      ensures requests == old(requests) + [Request(verb, err)]
    {
      requests := requests + [Request(verb, err)];
    }

    ghost method Note(c: Call)
      modifies this`calls
      ensures calls == old(calls) + [c]
    {
      calls := calls + [c];
    }

    method Now() returns (now: int)
      requires Valid()
      modifies this`w, this`trace, this`moves
      ensures Valid() && old(trace) < trace && Rely(me, old(w), w) && now == w.now
    {
      Interfere();
      now := w.now;
    }

    // --- the experiment object ---

    /** A reconcile begins. */
    method BeginReconcile()
      requires Valid()
      modifies this`w, this`trace, this`moves
      ensures Valid() && old(trace) <= trace && old(w).now <= w.now && me in w.began && w.began[me] == w.now
    {
      Interfere();
      Commit(Begin);
    }

    method Get() returns (err: ApiError, x: Option<Experiment>)
      requires Valid() && me in w.began
      modifies this`w, this`trace, this`moves, this`calls
      ensures calls == old(calls) + [Read(err, x)]
      ensures Valid() && old(trace) <= trace && Rely(me, old(w), w)
      ensures x.Some? <==> err.NoError?
      ensures x.Some? ==> Known(x.value) && me in w.exps && w.exps[me] == x.value
    {
      Interfere();
      var reachable: bool := *;
      err, x := if reachable then NotFound else Transport, None;
      if reachable && w.Present(me) {
        assert ExperimentInv(w, me);
        err, x := NoError, Some(w.exps[me]);
      }
      Note(Read(err, x));
    }

    /** A status write that reaches the server. */
    method StoreStatus(x: Experiment, kind: Write, st: Status) returns (stored: bool)
      requires Valid() && me in w.exps && w.exps[me] == x && Enabled(w, me, WriteStatus(kind, st))
      modifies this`w, this`trace, this`moves
      ensures Valid() && old(trace) <= trace && SameFault(me, old(w), w)
      ensures stored ==> Known(w.exps[me]) && w.exps[me] == x.(status := st, rv := w.exps[me].rv)
    {
      // The timing assumption on renewals excludes runs in which this write lands late.
      stored := Timely(Apply(w, me, WriteStatus(kind, st)));
      if stored {
        Commit(WriteStatus(kind, st));
        assert ExperimentInv(w, me);
      }
    }

    /** Writes the status subresource of the object last seen as x. */
    method UpdateStatus(x: Experiment, kind: Write, st: Status) returns (err: ApiError, x': Experiment)
      requires Valid() && Known(x)
      requires w.exps[me] == x ==> Transition(x, kind, st, FactsOf(w, me))
      requires x.deleting ==> kind.CleanupError?
      modifies this
      ensures Valid() && old(trace) <= trace && SameFault(me, old(w), w)
      ensures calls == old(calls) + [StatusUpdate(st, err.NoError?)]
      ensures err.NoError? ==> Known(x') && w.exps[me] == x' && x' == x.(status := st, rv := x'.rv)
    {
      ghost var was := w;
      Interfere();
      var reached: bool, replied: bool := *, *;
      var stored := false;
      err := if w.Present(me) then Conflict else NotFound;
      if reached && w.Present(me) && w.exps[me] == x {
        TransitionIsStable(me, was, w, x, kind, st);
        stored := StoreStatus(x, kind, st);
      }
      if !reached || (stored && !replied) {
        err := Transport;
      } else if stored {
        err := NoError;
      }
      x' := if stored then w.exps[me] else x;
      Note(StatusUpdate(st, err.NoError?));
    }

    /** The applied outcome of a finalizer write. */
    method StoreFinalizer(x: Experiment, present: bool)
      requires Valid() && me in w.exps && w.exps[me] == x && !x.gone
      requires MayStoreFinalizer(me, w, x, present)
      modifies this`w, this`trace, this`moves
      ensures Valid() && trace == old(trace) + [w]
      ensures SameFault(me, old(w), w) && w.exps[me].rv <= w.rev
      ensures var x' := w.exps[me];
        && x' == x.(finalizer := present, rv := w.rev, generation := x'.generation, gone := x'.gone)
        && (x'.gone <==> !present && x.deleting) && x.generation <= x'.generation
    {
      var bump: bool := *;
      Commit(if present then AddFinalizer(bump) else RemoveFinalizer(bump));
      assert ExperimentInv(w, me);
    }

    /** Writes the object last seen as x with the finalizer present or absent. */
    method UpdateFinalizer(x: Experiment, present: bool) returns (err: ApiError, x': Experiment)
      requires Valid() && Known(x) && MayStoreFinalizer(me, w, x, present)
      modifies this
      ensures Valid() && old(trace) <= trace && SameFault(me, old(w), w)
      ensures calls == old(calls) + [FinalizerUpdate(present, err.NoError?)]
      ensures err.NoError? ==> w.exps[me] == x' && x'.rv <= w.rev
      ensures err.NoError? ==> x' == x.(finalizer := present, rv := x'.rv, generation := x'.generation, gone := x'.gone)
      ensures err.NoError? ==> (x'.gone <==> !present && x.deleting) && x.generation <= x'.generation
    {
      Interfere();
      err, x' := Conflict, x;
      var reached: bool, replied: bool := *, *;
      if !reached || !w.Present(me) {
        err := if reached then NotFound else Transport;
      } else if w.exps[me] == x {
        StoreFinalizer(x, present);
        err, x' := if replied then NoError else Transport, w.exps[me];
      }
      Note(FinalizerUpdate(present, err.NoError?));
    }

    // --- the fault ---

    method InjectFault() returns (ok: bool)
      requires Valid() && w.Present(me) && me !in w.injected && w.exps[me].finalizer
      requires w.exps[me].status.phase.Injecting?
      requires me in w.began && FactsOf(w, me).Stamped(w.exps[me].status.injectionStartedAt)
      modifies this
      ensures Valid() && old(trace) <= trace && SameObject(me, old(w), w)
      ensures calls == old(calls) + [Inject(ok)]
      ensures me in w.injected && (ok ==> me in w.active)
    {
      assert ExperimentInv(w, me);
      Interfere();
      ok := *;
      var partly: bool := *;
      Commit(ExperimentWorld.InjectFault(ok || partly));
      Note(Inject(ok));
    }

    method RevertFault() returns (ok: bool)
      requires Valid() && me in w.exps && MayRevert(w, me)
      modifies this
      ensures Valid() && old(trace) <= trace && SameObject(me, old(w), w)
      ensures calls == old(calls) + [Revert(ok)]
      ensures ok ==> me !in w.active
      ensures !ok ==> me in w.revertFailed
      ensures ok ==> me in w.reverted && old(w).now <= w.reverted[me] == w.now
      ensures me in w.active ==> me in old(w).active
      ensures me in w.injected <==> me in old(w).injected
      ensures w.exps[me] == old(w.exps[me]) && w.exps[me].Guarded() && old(w.HeldBy(w.exps[me].spec.operator, me)) ==>
        w.HeldBy(w.exps[me].spec.operator, me)
    {
      ghost var was := w;
      Interfere();
      RevertStaysPermitted(me, was, w);
      ok := *;
      ClearFault(ok);
      Note(Revert(ok));
    }

    method ClearFault(ok: bool)
      requires Valid() && me in w.exps && MayRevert(w, me)
      modifies this`w, this`trace, this`moves
      ensures Valid() && trace == old(trace) + [w]
      ensures w == old(w).(active := w.active, revertFailed := w.revertFailed, reverted := w.reverted)
      ensures w.active == old(w).active || w.active == old(w).active - {me}
      ensures if ok then me !in w.active && me in w.reverted && w.reverted[me] == w.now else me in w.revertFailed
    {
      var cleared: bool := *;
      Commit(ExperimentWorld.RevertFault(ok, ok || cleared));
    }

    // --- leases ---

    method CreateLease(op: Operator, seconds: int, at: int) returns (err: ApiError)
      requires Valid() && MayAcquire(w, me) && seconds >= DEFAULT_LEASE_SECONDS && ReadSince(w, me, at)
      modifies this`w, this`trace, this`moves, this`requests
      ensures Valid() && old(trace) <= trace && SameObject(me, old(w), w) && SameFault(me, old(w), w)
      ensures requests == old(requests) + [Request(Creation, err)]
      ensures err.AlreadyExists? ==> Rely(me, old(w), w) && op in w.leases
      ensures err.NoError? ==>
        && |trace| >= |old(trace)| + 2
        && var was := trace[|trace| - 2];
           op !in was.leases && w.leases == was.leases[op := Lease(w.rev, Some(me), Some(seconds), Some(at), None)]
    {
      assert me in w.exps ==> ExperimentInv(w, me);
      Interfere();
      assert me in w.exps ==> ExperimentInv(w, me);
      var reached: bool, replied: bool := *, *;
      var found := op in w.leases;
      if reached && !found {
        StoreNewLease(op, seconds, at);
      }
      err := if !reached || !replied then Transport else if found then AlreadyExists else NoError;
      NoteRequest(Creation, err);
    }

    /** The applied outcome of a creation. */
    method StoreNewLease(op: Operator, seconds: int, at: int)
      requires Valid() && Enabled(w, me, ExperimentWorld.CreateLease(op, seconds, at))
      modifies this`w, this`trace, this`moves
      ensures Valid() && trace == old(trace) + [w]
      ensures w == old(w).(rev := w.rev, leases := old(w).leases[op := Lease(w.rev, Some(me), Some(seconds), Some(at), None)])
      ensures w.rev > old(w).rev
    {
      Commit(ExperimentWorld.CreateLease(op, seconds, at));
    }

    method GetLease(op: Operator) returns (err: ApiError, l: Option<Lease>)
      requires Valid()
      modifies this`w, this`trace, this`moves, this`requests
      ensures Valid() && trace == old(trace) + [w] && Rely(me, old(w), w)
      ensures requests == old(requests) + [Request(Lookup, err)]
      ensures err.NoError? <==> l.Some?
      ensures err.NotFound? ==> op !in w.leases
      ensures l.Some? ==> op in w.leases && w.leases[op] == l.value && LeaseInv(w, op)
    {
      Interfere();
      var reached: bool := *;
      err, l := if reached then NotFound else Transport, None;
      if reached && op in w.leases {
        err, l := NoError, Some(w.leases[op]);
      }
      NoteRequest(Lookup, err);
    }

    /** Overwrites the lease last seen as l: a renewal by its holder, or a takeover of
        a lease that had expired. */
    method UpdateLease(op: Operator, l: Lease, l': Lease) returns (err: ApiError)
      requires Valid() && KnownLease(op, l) && l.LastActive().Some?
      requires MayRenew(w, me, l, l') || MayTakeOver(w, me, l, l')
      modifies this`w, this`trace, this`moves, this`requests
      ensures Valid() && old(trace) <= trace && SameObject(me, old(w), w) && SameFault(me, old(w), w)
      ensures requests == old(requests) + [Request(Update, err)]
      ensures err.NoError? ==>
        && |trace| == |old(trace)| + 2
        && var was := trace[|trace| - 2];
           && op in was.leases && was.leases[op] == l
           && w.leases == was.leases[op := l'.(rv := w.rev)]
           && was.now == w.now
    {
      ghost var was := w;
      Interfere();
      LeaseWriteStaysPermitted(me, was, w, l, l');
      err := Conflict;
      var reached: bool, replied: bool := *, *;
      if !reached {
        err := Transport;
      } else if op !in w.leases {
        err := NotFound;
      } else if w.leases[op] == l {
        StoreLease(op, l, l');
        err := if replied then NoError else Transport;
      }
      NoteRequest(Update, err);
    }

    /** The applied outcome of a lease write. */
    method StoreLease(op: Operator, l: Lease, l': Lease)
      requires Valid() && op in w.leases && w.leases[op] == l && l.LastActive().Some?
      requires MayRenew(w, me, l, l') || MayTakeOver(w, me, l, l')
      modifies this`w, this`trace, this`moves
      ensures Valid() && trace == old(trace) + [w]
      ensures w == old(w).(rev := w.rev, leases := old(w).leases[op := l'.(rv := w.rev)]) && w.rev > old(w).rev
    {
      if MayRenew(w, me, l, l') {
        Commit(RenewLease(op, l'.renewTime.value));
      } else {
        Commit(ReclaimLease(op, l'.durationSeconds.value, l'.acquireTime.value));
      }
    }

    method DeleteLease(op: Operator, l: Lease) returns (err: ApiError)
      requires Valid() && KnownLease(op, l) && l.holder == Some(me) && MayRelease(w, me)
      modifies this`w, this`trace, this`moves, this`requests
      ensures Valid() && old(trace) <= trace && SameObject(me, old(w), w) && SameFault(me, old(w), w)
      ensures requests == old(requests) + [Request(Deletion, err)]
      ensures err.NoError? ==>
        && |trace| == |old(trace)| + 2
        && var was := trace[|trace| - 2];
           op in was.leases && was.leases[op] == l && w.leases == was.leases - {op}
    {
      Interfere();
      err := Conflict;
      var reached: bool, replied: bool := *, *;
      if !reached {
        err := Transport;
      } else if op !in w.leases {
        err := NotFound;
      } else if w.leases[op] == l {
        Commit(ExperimentWorld.DeleteLease(op));
        err := if replied then NoError else Transport;
      }
      NoteRequest(Deletion, err);
    }
  }

  /** A status write that was permitted stays permitted while the object is unchanged. */
  lemma TransitionIsStable(e: Name, w: World, w': World, x: Experiment, kind: Write, st: Status)
    requires Rely(e, w, w') && e in w.exps && w'.exps[e] == x && !x.gone && e in w.began
    requires w.exps[e] == x || w.exps[e].rv > x.rv
    requires Inv(w) && Inv(w')
    requires w.exps[e] == x ==> Transition(x, kind, st, FactsOf(w, e))
    requires x.deleting ==> kind.CleanupError?
    ensures Enabled(w', e, WriteStatus(kind, st))
  {
    assert ExperimentInv(w, e);
    assert w.exps[e] == x;
  }

  /** The reasons for a revert stay. */
  lemma RevertStaysPermitted(e: Name, w: World, w': World)
    requires Inv(w) && Rely(e, w, w') && e in w.exps && MayRevert(w, e)
    ensures MayRevert(w', e)
  {
    assert ExperimentInv(w, e);
    var op := w.exps[e].spec.operator;
    if op in w'.leases { assert KeptOrForeign(e, w, w', op); }
  }

  /** l' is l, which e holds, renewed at a time just read. */
  predicate MayRenew(w: World, e: Name, l: Lease, l': Lease) {
    && l.holder == Some(e) && l'.renewTime.Some? && l' == l.(renewTime := l'.renewTime)
    && l.LastActive().Some? && l.LastActive().value <= l'.renewTime.value && ReadSince(w, e, l'.renewTime.value)
  }

  /** l' is a new lease of e at a time just read, in place of l, which has expired. */
  predicate MayTakeOver(w: World, e: Name, l: Lease, l': Lease) {
    && l.Expired(w.now) && MayAcquire(w, e) && l'.durationSeconds.Some? && l'.acquireTime.Some?
    && l' == Lease(l.rv, Some(e), l'.durationSeconds, l'.acquireTime, None)
    && l'.durationSeconds.value >= DEFAULT_LEASE_SECONDS && ReadSince(w, e, l'.acquireTime.value)
  }

  lemma LeaseWriteStaysPermitted(e: Name, w: World, w': World, l: Lease, l': Lease)
    requires Rely(e, w, w') && (MayRenew(w, e, l, l') || MayTakeOver(w, e, l, l'))
    ensures MayRenew(w', e, l, l') || MayTakeOver(w', e, l, l')
  {
  }

  /** Only a status write can make a lease count as overdue. */
  lemma OwnStepIsTimely(w: World, e: Name, eff: Effect)
    requires Inv(w) && Timely(w) && Enabled(w, e, eff) && !eff.WriteStatus?
    ensures Timely(Apply(w, e, eff))
  {
    var w' := Apply(w, e, eff);
    forall f | f in w'.exps ensures RenewedInTime(w', f) {
      assert RenewedInTime(w, f);
      if eff.RenewLease? { assert LeaseInv(w, eff.op); }
    }
  }
}
