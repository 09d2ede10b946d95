/** The in-process experiment lock, and the lock semantics that both locks share. */
module LocalLock {
  import opened Wrappers
  import opened ExperimentWorld

  datatype LockResult =
    | Granted
    | Contention(holder: Name)
    | HolderMismatch(holder: Name)
    | LockNotFound
    | CallFailed            // write conflict, read race or transport failure

  type Holders = map<Operator, Name>

  function AcquireIn(locks: Holders, op: Operator, e: Name): (Holders, LockResult) {
    if op !in locks then (locks[op := e], Granted)
    else if locks[op] == e then (locks, Granted)
    else (locks, Contention(locks[op]))
  }

  function RenewIn(locks: Holders, op: Operator, e: Name): (Holders, LockResult) {
    if op !in locks then (locks, LockNotFound)
    else if locks[op] == e then (locks, Granted)
    else (locks, HolderMismatch(locks[op]))
  }

  function ReleaseIn(locks: Holders, op: Operator, e: Name): (Holders, LockResult) {
    if op !in locks then (locks, LockNotFound)
    else if locks[op] == e then (locks - {op}, Granted)
    else (locks, HolderMismatch(locks[op]))
  }

  class LocalExperimentLock {
    var locks: map<Operator, Name>

    constructor ()
      ensures locks == map[]
    {
      locks := map[];
    }

    method Acquire(op: Operator, e: Name) returns (r: LockResult)
      modifies this
      ensures (locks, r) == AcquireIn(old(locks), op, e)
    {
      if op in locks {
        var existing := locks[op];
        if existing == e {
          return Granted;
        }
        return Contention(existing);
      }
      locks := locks[op := e];
      return Granted;
    }

    method Renew(op: Operator, e: Name) returns (r: LockResult)
      ensures (locks, r) == RenewIn(old(locks), op, e)
    {
      if op !in locks {
        return LockNotFound;
      }
      if locks[op] != e {
        return HolderMismatch(locks[op]);
      }
      return Granted;
    }

    method Release(op: Operator, e: Name) returns (r: LockResult)
      modifies this
      ensures (locks, r) == ReleaseIn(old(locks), op, e)
    {
      if op !in locks {
        return LockNotFound;
      }
      if locks[op] != e {
        return HolderMismatch(locks[op]);
      }
      locks := locks - {op};
      return Granted;
    }
  }
}
