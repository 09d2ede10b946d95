/** The distributed experiment lock: one lease per operator, used through separate
    API calls between which other callers run.  Each call that does not fail behaves,
    at one instant of its execution, like the in-process lock; the only exception is
    the takeover of a lease that has expired at the instant of the write. */
module LeaseLock {
  import opened Wrappers
  import opened ExperimentWorld
  import opened LocalLock
  import opened ApiClient

  function HoldersOf(w: World): Holders {
    map op | op in w.leases && w.leases[op].holder.Some? :: w.leases[op].holder.value
  }

  /** before and after are the two ends of one instant of the call: the same recorded
      state, or a state and its successor. */
  ghost predicate Instant(start: nat, trace: seq<World>, before: nat, after: nat) {
    start <= before <= after <= before + 1 && after < |trace|
  }

  predicate TakesOverExpired(w: World, w': World, op: Operator, e: Name) {
    && op in w.leases && op in w'.leases
    && w.leases[op].holder != Some(e) && w.leases[op].Expired(w.now) && w.now == w'.now
    && HoldersOf(w') == HoldersOf(w)[op := e]
  }

  lemma HoldersAfterWrite(w: World, w': World, op: Operator, e: Name, l: Lease)
    requires w'.leases == w.leases[op := l] && l.holder == Some(e)
    ensures HoldersOf(w') == HoldersOf(w)[op := e]
  {
  }

  lemma HoldersAfterDelete(w: World, w': World, op: Operator)
    requires w'.leases == w.leases - {op}
    ensures HoldersOf(w') == HoldersOf(w) - {op}
  {
  }

  /** An acquisition agrees with the in-process lock, or takes over an expired lease. */
  predicate Acquires(w: World, w': World, op: Operator, e: Name, r: LockResult) {
    (HoldersOf(w'), r) == AcquireIn(HoldersOf(w), op, e) || (r.Granted? && TakesOverExpired(w, w', op, e))
  }

  lemma HoldersAfterRenewal(w: World, w': World, op: Operator, e: Name, l: Lease)
    requires w'.leases == w.leases[op := l] && l.holder == Some(e) && w.HeldBy(op, e)
    ensures HoldersOf(w') == HoldersOf(w)
  {
  }

  function Int32(x: int): int {
    (x + 0x8000_0000) % 0x1_0000_0000 - 0x8000_0000
  }

  /** The lease duration in seconds asked for by Acquire. */
  function LeaseSeconds(duration: nat): int {
    var dynamicSeconds := Int32(duration / SECOND);
    if dynamicSeconds > DEFAULT_LEASE_SECONDS then dynamicSeconds else DEFAULT_LEASE_SECONDS
  }

  /** A lease of the given duration lasts at least as long, to the second, and never less than the default;
      longer durations than 32-bit seconds can hold apart. */
  lemma LeaseCovers(duration: nat)
    requires duration < 0x8000_0000 * SECOND
    ensures LeaseSeconds(duration) >= DEFAULT_LEASE_SECONDS && LeaseSeconds(duration) * SECOND > duration - SECOND
    ensures LeaseSeconds(duration) == DEFAULT_LEASE_SECONDS || LeaseSeconds(duration) * SECOND <= duration
  {
  }

  /** e holds the lease, and was last active on it when the clock showed a time between the two given. */
  predicate ActiveBetween(w: World, op: Operator, e: Name, from: int, to: int) {
    && w.HeldBy(op, e) && w.leases[op].LastActive().Some? && from <= w.leases[op].LastActive().value <= to
  }

  /** Contention is reported of a lease that has not expired only. */
  predicate StillHeld(w: World, op: Operator) {
    op in w.leases && !w.leases[op].Expired(w.now)
  }

  /** The last new request failed, or a lease that had just been found was gone. */
  predicate LastUnanswered(before: seq<Request>, after: seq<Request>) {
    |before| < |after| && (IsFailure(after[|after| - 1]) || after[|after| - 1] == Request(Lookup, NotFound))
  }

  /** The lease is new: acquired at a time between the two given, for so long. */
  predicate AcquiredBetween(w: World, op: Operator, e: Name, seconds: int, from: int, to: int) {
    ActiveBetween(w, op, e, from, to) && w.leases[op].renewTime.None? && w.leases[op].durationSeconds == Some(seconds)
  }

  /** The lease was renewed at a time between the two given, and is otherwise as it was. */
  predicate RenewedBetween(w: World, w': World, op: Operator, e: Name, from: int, to: int) {
    && w.HeldBy(op, e) && ActiveBetween(w', op, e, from, to) && w'.leases[op].renewTime.Some?
    && w'.leases[op] == w.leases[op].(rv := w'.leases[op].rv, renewTime := w'.leases[op].renewTime)
  }

  /** A granted acquisition leaves the lease with a fresh time and the given duration, except that of a
      lease that was held already, which is not touched. */
  predicate Acquired(w: World, w': World, op: Operator, e: Name, seconds: int, from: int) {
    if w.HeldBy(op, e) then w' == w else AcquiredBetween(w', op, e, seconds, from, w'.now)
  }

  /** A lease does not expire before its duration has passed since its holder was last active. */
  lemma ActiveIsNotExpired(w: World, op: Operator, e: Name, from: int, to: int, later: int)
    requires ActiveBetween(w, op, e, from, to) && LeaseInv(w, op)
    ensures w.leases[op].Expired(later) ==> later > from + w.leases[op].durationSeconds.value * SECOND
    ensures w.leases[op].Expired(later) <==> later > w.leases[op].LastActive().value + w.leases[op].durationSeconds.value * SECOND
  {
  }

  lemma TakenOver(w: World, w': World, op: Operator, e: Name, l: Lease, seconds: int, now: int)
    requires op in w.leases && w.leases[op] == l && l.holder != Some(e) && l.Expired(now) && now <= w.now == w'.now
    requires w'.leases == w.leases[op := Lease(w'.rev, Some(e), Some(seconds), Some(now), None)]
    ensures TakesOverExpired(w, w', op, e) && AcquiredBetween(w', op, e, seconds, now, w'.now)
  {
    HoldersAfterWrite(w, w', op, e, w'.leases[op]);
  }

  lemma Refreshes(w: World, w': World, op: Operator, e: Name, l: Lease, now: int)
    requires op in w.leases && w.leases[op] == l && l.holder == Some(e) && now <= w'.now
    requires w'.leases == w.leases[op := l.(rv := w'.rev, renewTime := Some(now))]
    ensures HoldersOf(w') == HoldersOf(w) && RenewedBetween(w, w', op, e, now, w'.now)
  {
    HoldersAfterRenewal(w, w', op, e, w'.leases[op]);
  }

  class LeaseExperimentLock {
    const client: Client

    constructor (client: Client)
      ensures this.client == client
    {
      this.client := client;
    }

    /** Takes over the expired lease l, unless someone has written it since. */
    method Reclaim(op: Operator, l: Lease, seconds: int) returns (r: LockResult, ghost before: nat, ghost after: nat)
      requires client.Valid() && MayAcquire(client.w, client.me) && seconds >= DEFAULT_LEASE_SECONDS
      requires client.KnownLease(op, l) && l.LastActive().Some?
      requires l.holder != Some(client.me) && l.Expired(client.w.now)
      modifies client`w, client`trace, client`moves, client`requests
      ensures client.Valid() && old(client.trace) <= client.trace
      ensures SameObject(client.me, old(client.w), client.w) && SameFault(client.me, old(client.w), client.w)
      ensures old(client.requests) <= client.requests && (r.CallFailed? ==> LastFailed(old(client.requests), client.requests))
      ensures r.CallFailed? || (r.Granted? && Instant(old(|client.trace|), client.trace, before, after))
      ensures r.Granted? ==> TakesOverExpired(client.trace[before], client.trace[after], op, client.me)
      ensures r.Granted? ==>
        AcquiredBetween(client.trace[after], op, client.me, seconds, old(client.w.now), client.trace[after].now)
    {
      var reclaimNow := client.Now();
      var err := client.UpdateLease(op, l, Lease(l.rv, Some(client.me), Some(seconds), Some(reclaimNow), None));
      r, before, after := CallFailed, 0, 0;
      if err.NoError? {
        r, before, after := Granted, |client.trace| - 2, |client.trace| - 1;
        TakenOver(client.trace[before], client.trace[after], op, client.me, l, seconds, reclaimNow);
      }
    }

    /** Acquire when the lease already exists. */
    method AcquireExisting(op: Operator, seconds: int) returns (r: LockResult, ghost before: nat, ghost after: nat)
      requires client.Valid() && MayAcquire(client.w, client.me) && seconds >= DEFAULT_LEASE_SECONDS
      modifies client`w, client`trace, client`moves, client`requests
      ensures client.Valid() && old(client.trace) <= client.trace
      ensures SameObject(client.me, old(client.w), client.w) && SameFault(client.me, old(client.w), client.w)
      ensures old(client.requests) <= client.requests && (r.CallFailed? ==> LastUnanswered(old(client.requests), client.requests))
      ensures r.CallFailed? || Instant(old(|client.trace|), client.trace, before, after)
      ensures r.Contention? ==> StillHeld(client.trace[before], op)
      ensures r.CallFailed? || Acquires(client.trace[before], client.trace[after], op, client.me, r)
      ensures r.Granted? ==> Acquired(client.trace[before], client.trace[after], op, client.me, seconds, old(client.w.now))
    {
      var me := client.me;
      var err, existing := client.GetLease(op);
      before, after := |client.trace| - 1, |client.trace| - 1;
      if existing.None? {
        return CallFailed, before, after;
      }
      var l := existing.value;
      if l.holder == Some(me) {
        // Self-re-acquire: granted without refreshing the lease.
        return Granted, before, after;
      }
      var now := client.Now();
      if !l.Expired(now) {
        return Contention(l.holder.value), before, after;
      }
      r, before, after := Reclaim(op, l, seconds);
    }

    /** Creates the lease; created is false if there is one already. */
    method CreateNew(op: Operator, seconds: int) returns (r: LockResult, created: bool, ghost before: nat, ghost after: nat)
      requires client.Valid() && MayAcquire(client.w, client.me) && seconds >= DEFAULT_LEASE_SECONDS
      modifies client`w, client`trace, client`moves, client`requests
      ensures client.Valid() && old(client.trace) <= client.trace
      ensures SameObject(client.me, old(client.w), client.w) && SameFault(client.me, old(client.w), client.w)
      ensures old(client.requests) <= client.requests
      ensures !created ==> MayAcquire(client.w, client.me)
      ensures created && r.CallFailed? ==> LastFailed(old(client.requests), client.requests)
      ensures created ==> r.CallFailed? || (r.Granted? && Instant(old(|client.trace|), client.trace, before, after))
      ensures created && r.Granted? ==>
        && Acquires(client.trace[before], client.trace[after], op, client.me, r) && op !in client.trace[before].leases
        && AcquiredBetween(client.trace[after], op, client.me, seconds, old(client.w.now), client.trace[after].now)
    {
      var now := client.Now();
      var err := client.CreateLease(op, seconds, now);
      r, created, before, after := CallFailed, !err.AlreadyExists?, 0, 0;
      if err.NoError? {
        r, before, after := Granted, |client.trace| - 2, |client.trace| - 1;
        HoldersAfterWrite(client.trace[before], client.w, op, client.me, client.w.leases[op]);
      }
    }

    method Acquire(op: Operator, duration: nat) returns (r: LockResult, ghost before: nat, ghost after: nat)
      requires client.Valid() && MayAcquire(client.w, client.me)
      modifies client
      ensures client.Valid() && old(client.trace) <= client.trace
      ensures SameObject(client.me, old(client.w), client.w) && SameFault(client.me, old(client.w), client.w)
      ensures client.calls == old(client.calls) + [Call.Acquire(op, duration, r)]
      ensures old(client.requests) <= client.requests && (r.CallFailed? ==> LastUnanswered(old(client.requests), client.requests))
      ensures r.CallFailed? || Instant(old(|client.trace|), client.trace, before, after)
      ensures r.Contention? ==> StillHeld(client.trace[before], op)
      ensures r.CallFailed? || Acquires(client.trace[before], client.trace[after], op, client.me, r)
      ensures r.Granted? ==>
        Acquired(client.trace[before], client.trace[after], op, client.me, LeaseSeconds(duration), old(client.w.now))
    {
      var leaseDurationSeconds := LeaseSeconds(duration);
      var created;
      r, created, before, after := CreateNew(op, leaseDurationSeconds);
      if !created {
        r, before, after := AcquireExisting(op, leaseDurationSeconds);
      }
      client.Note(Call.Acquire(op, duration, r));
    }

    /** Renews the own lease l, unless someone has written it since. */
    method Refresh(op: Operator, l: Lease) returns (r: LockResult, ghost before: nat, ghost after: nat)
      requires client.Valid() && client.KnownLease(op, l) && l.holder == Some(client.me)
      requires l.LastActive().Some? && l.LastActive().value <= client.w.now
      modifies client`w, client`trace, client`moves, client`requests
      ensures client.Valid() && old(client.trace) <= client.trace
      ensures SameObject(client.me, old(client.w), client.w) && SameFault(client.me, old(client.w), client.w)
      ensures old(client.requests) <= client.requests && (r.CallFailed? ==> LastFailed(old(client.requests), client.requests))
      ensures r.CallFailed? || (r.Granted? && Instant(old(|client.trace|), client.trace, before, after))
      ensures r.Granted? ==>
        (HoldersOf(client.trace[after]), r) == RenewIn(HoldersOf(client.trace[before]), op, client.me)
      ensures r.Granted? ==>
        && client.w == client.trace[after]
        && RenewedBetween(client.trace[before], client.w, op, client.me, old(client.w.now), client.w.now)
    {
      var now := client.Now();
      var err := client.UpdateLease(op, l, l.(renewTime := Some(now)));
      r, before, after := CallFailed, 0, 0;
      if err.NoError? {
        r, before, after := Granted, |client.trace| - 2, |client.trace| - 1;
        Refreshes(client.trace[before], client.w, op, client.me, l, now);
      }
    }

    method Renew(op: Operator) returns (r: LockResult, ghost before: nat, ghost after: nat)
      requires client.Valid()
      modifies client
      ensures client.Valid() && old(client.trace) <= client.trace
      ensures SameObject(client.me, old(client.w), client.w) && SameFault(client.me, old(client.w), client.w)
      ensures client.calls == old(client.calls) + [Call.Renew(op, r)]
      ensures old(client.requests) <= client.requests && (r.CallFailed? ==> LastFailed(old(client.requests), client.requests))
      ensures r.CallFailed? || Instant(old(|client.trace|), client.trace, before, after)
      ensures r.CallFailed? ||
        (HoldersOf(client.trace[after]), r) == RenewIn(HoldersOf(client.trace[before]), op, client.me)
      ensures r.Granted? ==>
        && client.w == client.trace[after]
        && RenewedBetween(client.trace[before], client.w, op, client.me, old(client.w.now), client.w.now)
      ensures r.HolderMismatch? || r.LockNotFound? ==> !client.w.HeldBy(op, client.me)
    {
      before, after := 0, 0;
      var me := client.me;
      var err, existing := client.GetLease(op);
      before, after := |client.trace| - 1, |client.trace| - 1;
      if existing.None? {
        r := if err.NotFound? then LockNotFound else CallFailed;
      } else if existing.value.holder != Some(me) {
        r := HolderMismatch(existing.value.holder.value);
      } else {
        r, before, after := Refresh(op, existing.value);
      }
      client.Note(Call.Renew(op, r));
    }

    /** Deletes the own lease l, unless someone has written it since. */
    method Drop(op: Operator, l: Lease) returns (r: LockResult, ghost before: nat, ghost after: nat)
      requires client.Valid() && client.KnownLease(op, l) && l.holder == Some(client.me) && MayRelease(client.w, client.me)
      modifies client`w, client`trace, client`moves, client`requests
      ensures client.Valid() && old(client.trace) <= client.trace
      ensures SameObject(client.me, old(client.w), client.w) && SameFault(client.me, old(client.w), client.w)
      ensures old(client.requests) <= client.requests && (r.CallFailed? ==> LastFailed(old(client.requests), client.requests))
      ensures r.CallFailed? || (r.Granted? && Instant(old(|client.trace|), client.trace, before, after))
      ensures r.Granted? ==>
        (HoldersOf(client.trace[after]), r) == ReleaseIn(HoldersOf(client.trace[before]), op, client.me)
    {
      var err := client.DeleteLease(op, l);
      if !err.NoError? {
        return CallFailed, 0, 0;
      }
      HoldersAfterDelete(client.trace[|client.trace| - 2], client.w, op);
      return Granted, |client.trace| - 2, |client.trace| - 1;
    }

    method Release(op: Operator) returns (r: LockResult, ghost before: nat, ghost after: nat)
      requires client.Valid() && MayRelease(client.w, client.me)
      modifies client
      ensures client.Valid() && old(client.trace) <= client.trace
      ensures SameObject(client.me, old(client.w), client.w) && SameFault(client.me, old(client.w), client.w)
      ensures client.calls == old(client.calls) + [Call.Release(op, r)]
      ensures old(client.requests) <= client.requests && (r.CallFailed? ==> LastFailed(old(client.requests), client.requests))
      ensures r.CallFailed? || Instant(old(|client.trace|), client.trace, before, after)
      ensures r.CallFailed? ||
        (HoldersOf(client.trace[after]), r) == ReleaseIn(HoldersOf(client.trace[before]), op, client.me)
    {
      before, after := 0, 0;
      var me := client.me;
      var err, existing := client.GetLease(op);
      before, after := |client.trace| - 1, |client.trace| - 1;
      if existing.None? {
        r := if err.NotFound? then LockNotFound else CallFailed;
      } else if existing.value.holder != Some(me) {
        r := HolderMismatch(existing.value.holder.value);
      } else {
        r, before, after := Drop(op, existing.value);
      }
      client.Note(Call.Release(op, r));
    }
  }
}
