/**
 * The per-user lock registry, seen sequentially: a map from user id to lock that is grown lazily
 * and never shrinks. A lock is an identity only; each new one takes the next unused token.
 */
module LockRegistry {

  datatype Lock = Lock(token: nat)

  /** The registered locks, and the token the next new lock will take. */
  datatype Registry = Registry(locks: map<int, Lock>, next: nat)

  /** The registry after a lookup, and the lock the lookup returned. */
  datatype Acquired = Acquired(registry: Registry, lock: Lock)

  /** Every registered token was handed out before `next`, and no two users share a lock. */
  predicate RegistryValid(reg: Registry)
  {
    && (forall id :: id in reg.locks ==> reg.locks[id].token < reg.next)
    && (forall a, b :: a in reg.locks && b in reg.locks && a != b ==> reg.locks[a] != reg.locks[b])
  }

  /** Returns the lock of `id`, creating and registering a fresh one on first reference. */
  function ComputeIfAbsent(reg: Registry, id: int): (r: Acquired)
    ensures id in r.registry.locks && r.registry.locks[id] == r.lock
    ensures r.registry.locks.Keys == reg.locks.Keys + {id}
    ensures forall k :: k in reg.locks ==> r.registry.locks[k] == reg.locks[k]
    ensures id in reg.locks ==> r.registry == reg
    ensures id !in reg.locks ==> r.registry.next == reg.next + 1 && r.lock.token == reg.next
    ensures RegistryValid(reg) ==>
      RegistryValid(r.registry) && (forall k :: k in reg.locks && k != id ==> reg.locks[k] != r.lock)
  {
    if id in reg.locks then Acquired(reg, reg.locks[id])
    else
      var lock := Lock(reg.next);
      Acquired(Registry(reg.locks[id := lock], reg.next + 1), lock)
  }

  /** Looking the same id up twice in a row returns the same lock and leaves the registry as it was. */
  lemma ComputeIfAbsentIdempotent(reg: Registry, id: int)
    ensures var r := ComputeIfAbsent(reg, id);
      ComputeIfAbsent(r.registry, id) == r
  {
  }

  /** Looks the ids up in turn, as successive callers do; the result is the registry afterwards. */
  function ComputeAll(reg: Registry, ids: seq<int>): (r: Registry)
    ensures forall k :: k in reg.locks ==> k in r.locks && r.locks[k] == reg.locks[k]
    ensures forall i :: 0 <= i < |ids| ==> ids[i] in r.locks
    decreases |ids|
  {
    if ids == [] then reg
    else ComputeAll(ComputeIfAbsent(reg, ids[0]).registry, ids[1..])
  }

  /**
   * Over any sequence of lookups the registry grows by exactly the ids looked up, and locks stay
   * distinct per user.
   */
  lemma {:induction false} ComputeAllKeepsLocks(reg: Registry, ids: seq<int>)
    requires RegistryValid(reg)
    ensures var r := ComputeAll(reg, ids);
      && RegistryValid(r)
      && r.locks.Keys == reg.locks.Keys + (set i | i in ids)
    decreases |ids|
  {
    if ids != [] {
      ComputeAllKeepsLocks(ComputeIfAbsent(reg, ids[0]).registry, ids[1..]);
      assert (set i | i in ids) == {ids[0]} + (set i | i in ids[1..]);
    }
  }
}
