/**
 * The point service: balance lookups, history lookups, and the read-check-write-append charge and
 * use operations over a shared balance table and an append-only history. Requests run one at a
 * time, which is what the per-user locks guarantee for requests on the same user.
 */
module PointServices {
  import opened UserPoints
  import opened PointTable
  import opened PointLedger
  import opened LockRegistry

  class PointService {
    const userPointTable: UserPointTable
    /** Every committed request, in commit order. */
    var history: seq<HistoryEntry>
    /** Per-user lock registry, and the token the next new lock will take. */
    var userLockMap: map<int, Lock>
    var nextToken: nat

    ghost predicate Valid()
      reads this, userPointTable
    {
      && userPointTable.Valid()
      && LedgerValid(Snapshot())
      && RegistryValid(Registry(userLockMap, nextToken))
    }

    /** The balances and history as one value, the state the ledger transitions act on. */
    ghost function Snapshot(): Ledger
      reads this, userPointTable
    {
      Ledger(userPointTable.table, history)
    }

    constructor (table: UserPointTable)
      requires table.Valid() && LedgerValid(Ledger(table.table, []))
      ensures Valid()
      ensures userPointTable == table && history == [] && userLockMap == map[]
    {
      userPointTable := table;
      history := [];
      userLockMap := map[];
      nextToken := 0;
    }

    /** The lock of `userId`, registered on first reference; the registry only ever grows. */
    method GetUserLock(userId: int) returns (lock: Lock)
      requires RegistryValid(Registry(userLockMap, nextToken))
      modifies this`userLockMap, this`nextToken
      ensures RegistryValid(Registry(userLockMap, nextToken))
      ensures Acquired(Registry(userLockMap, nextToken), lock) == ComputeIfAbsent(old(Registry(userLockMap, nextToken)), userId)
      ensures userId in userLockMap && userLockMap[userId] == lock
      ensures forall id :: id in old(userLockMap) ==> id in userLockMap && userLockMap[id] == old(userLockMap)[id]
    {
      if userId in userLockMap {
        lock := userLockMap[userId];
      } else {
        lock := Lock(nextToken);
        userLockMap := userLockMap[userId := lock];
        nextToken := nextToken + 1;
      }
    }

    /** The balance of `id`: the stored record, or a zero balance stamped `now` for an unknown id. */
    method Point(id: int, now: int) returns (p: UserPoint)
      requires Valid()
      ensures p == Lookup(userPointTable.table, id, now)
      ensures p.id == id
      ensures id >= 1 ==> WellFormed(p)
    {
      p := userPointTable.SelectById(id, now);
    }

    /** The history rows of `id`, in the order they were committed. */
    method History(id: int) returns (entries: seq<HistoryEntry>)
      ensures entries == EntriesOf(history, id)
      ensures forall i :: 0 <= i < |entries| ==> entries[i].userId == id
    {
      entries := EntriesOf(history, id);
    }

    /**
     * Charges `req.amount` to `req.userId`. `readMillis` and `writeMillis` are the clock readings
     * taken when the balance is read and when it is written.
     */
    method Charge(req: Request, readMillis: int, writeMillis: int) returns (outcome: Outcome)
      requires Valid() && ValidRequest(req)
      modifies this, userPointTable
      ensures Valid()
      ensures var t := ChargeStep(old(Snapshot()), req, readMillis, writeMillis);
        Snapshot() == t.after && outcome == t.outcome
      ensures Registry(userLockMap, nextToken) == ComputeIfAbsent(old(Registry(userLockMap, nextToken)), req.userId).registry
    {
      var lock := GetUserLock(req.userId);
      var cur := userPointTable.SelectById(req.userId, readMillis);
      if !CanCharge(cur, req.amount) {
        return Rejected(BalanceLimitExceeded);
      }
      var p := userPointTable.InsertOrUpdate(cur.id, cur.point + req.amount, writeMillis);
      history := history + [EntryFor(req)];
      outcome := Committed(p);
    }

    /**
     * Uses `req.amount` from the balance of `req.userId`: refused when the balance is insufficient,
     * then when the record is expired; otherwise the difference is stored and the request logged.
     */
    method Use(req: Request, readMillis: int, writeMillis: int) returns (outcome: Outcome)
      requires Valid() && ValidRequest(req)
      modifies this, userPointTable
      ensures Valid()
      ensures var t := UseStep(old(Snapshot()), req, readMillis, writeMillis);
        Snapshot() == t.after && outcome == t.outcome
      ensures Registry(userLockMap, nextToken) == ComputeIfAbsent(old(Registry(userLockMap, nextToken)), req.userId).registry
    {
      var lock := GetUserLock(req.userId);
      var cur := userPointTable.SelectById(req.userId, readMillis);
      if CanUse(cur, req.amount) {
        return Rejected(InsufficientBalance);
      }
      if IsExpired(cur, req.updateMillis) {
        return Rejected(BalanceExpired);
      }
      var p := userPointTable.InsertOrUpdate(cur.id, cur.point - req.amount, writeMillis);
      history := history + [EntryFor(req)];
      outcome := Committed(p);
    }
  }
}
