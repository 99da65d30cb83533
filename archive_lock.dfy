/** ArchiveLockService: one binary semaphore per account, created on first use
    and kept for the life of the process, and the disposable handle that gives
    the permit back. Only the permit bookkeeping is modelled; a wait that
    would block is reported as such instead of being carried out. */
module ArchiveLock {
  import opened MailModel

  /** How AcquireLockAsync ends, seen from a single thread. */
  datatype AcquireOutcome =
    | Acquired(handle: Release)
    | Cancelled   // the token was already cancelled: no handle, no permit taken
    | Waiting     // the permit is held: the wait has not completed

  lemma MapUpdateTwice(m: map<Guid, nat>, id: Guid, a: nat, b: nat)
    ensures m[id := a][id := b] == m[id := b]
  {
  }

  lemma MapUpdateSame(m: map<Guid, nat>, id: Guid)
    ensures id in m && m[id] == 1 ==> m[id := 1] == m
  {
  }

  class ArchiveLockService {
    /** CurrentCount of each account's semaphore (the _locks dictionary). */
    var locks: map<Guid, nat>
    /** The undisposed handle that holds each taken permit. */
    ghost var holders: map<Guid, Release>
    /** Every handle this service has handed out. */
    ghost var issued: set<Release>

    ghost predicate Valid()
      reads this, issued
    {
      && (forall id :: id in locks ==> locks[id] <= 1)
      && (forall id :: id in holders <==> id in locks && locks[id] == 0)
      && (forall id :: id in holders ==> holders[id] in issued)
      && (forall h :: h in issued ==> h.owner == this)
      && (forall h :: h in issued && !h.disposed ==> h.id in holders && holders[h.id] == h)
      && (forall id :: id in holders ==> holders[id].id == id && !holders[id].disposed)
    }

    /** The permits available for `id`; an account without an entry would get
        a fresh semaphore with one permit. */
    function Permits(id: Guid): (n: nat)
      reads this, issued
      requires Valid()
      ensures n <= 1
    {
      if id in locks then locks[id] else 1
    }

    constructor ()
      ensures Valid()
      ensures locks == map[] && issued == {}
    {
      locks := map[];
      holders := map[];
      issued := {};
    }

    /** _locks.GetOrAdd(id, new SemaphoreSlim(1, 1)), then WaitAsync. */
    method AcquireLock(id: Guid, cancelRequested: bool) returns (outcome: AcquireOutcome)
      requires Valid()
      modifies this
      ensures Valid()
      ensures outcome.Acquired? <==> !cancelRequested && old(Permits(id)) == 1
      ensures outcome.Waiting? <==> !cancelRequested && old(Permits(id)) == 0
      ensures outcome.Acquired? ==>
        && fresh(outcome.handle) && outcome.handle.id == id && !outcome.handle.disposed
        && outcome.handle.owner == this && outcome.handle in issued
        && locks == old(locks)[id := 0]
      ensures !outcome.Acquired? ==> locks == (if id in old(locks) then old(locks) else old(locks)[id := 1])
      ensures issued >= old(issued)
    {
      if id !in locks {
        locks := locks[id := 1];
      }
      if cancelRequested {
        return Cancelled;
      }
      if locks[id] == 0 {
        return Waiting;
      }
      var h := new Release(this, id);
      locks := locks[id := 0];
      holders := holders[id := h];
      issued := issued + {h};
      outcome := Acquired(h);
    }
  }

  /** The handle AcquireLockAsync returns; disposing it releases the permit once. */
  class Release {
    const owner: ArchiveLockService
    const id: Guid
    var disposed: bool

    constructor (owner: ArchiveLockService, id: Guid)
      ensures this.owner == owner && this.id == id && !disposed
    {
      this.owner := owner;
      this.id := id;
      disposed := false;
    }

    /** Dispose: the first call releases the semaphore, later calls do nothing.
        The semaphore is never released past its maximum of one. */
    method Dispose()
      requires owner.Valid() && this in owner.issued
      modifies this, owner
      ensures owner.Valid() && disposed
      ensures owner.issued == old(owner.issued)
      ensures old(disposed) ==> owner.locks == old(owner.locks)
      ensures !old(disposed) ==> id in old(owner.locks) && old(owner.locks)[id] == 0 && owner.locks == old(owner.locks)[id := 1]
    {
      if disposed {
        return;
      }
      assert owner.locks[id] == 0;
      owner.locks := owner.locks[id := owner.locks[id] + 1];
      owner.holders := owner.holders - {id};
      disposed := true;
    }
  }
}
