# Point service balance core, in Dafny

This project models the balance-mutation core of a small point service. Each user holds a point
balance between 0 and 5000. A **charge** credits the balance and a **use** debits it. Each
committed request is appended to a history log.

- `UserPoints` (`user_point.dfy`) holds the balance record `UserPoint(id, point, updateMillis)`.
  It also holds the three guards evaluated on a record:
  - the maximum-balance check `CanCharge`;
  - the balance check `CanUse`, which despite its name is true when the balance is *insufficient*;
  - the expiry check `IsExpired`.

  The module also defines the zero-balance record `Empty` and the 64-bit version of the charge guard
  (see Findings).
- `PointTable` (`user_point_table.dfy`) holds the balance table. `UserPointTable` is a class with a
  `map<int, UserPoint>` field. `SelectById` is get-or-default to the zero balance.
  `InsertOrUpdate` is an unconditional overwrite that stamps the record with the clock reading it
  is given.
- `LockRegistry` (`lock_registry.dfy`) holds the per-user lock registry, seen sequentially:
  - a lock is a token;
  - `ComputeIfAbsent` registers a fresh token on the first reference to a user id;
  - the map only ever grows.
- `PointLedger` (`point_ledger.dfy`) holds `ChargeStep` and `UseStep`. These are the charge and use
  transitions as functions of the balances and history before the request. The module also holds
  the per-user history filter `EntriesOf` and `Run`, which applies a sequence of requests one at a
  time. `Run`'s own contract keeps balances in [0, 5000]; the lemma `RunKeepsInvariants` states
  that the history is append-only.
- `PointServices` (`point_service.dfy`) holds the `PointService` class, which has:
  - the table, the history sequence, the lock map and the next lock token as fields;
  - `Charge` and `Use`, which run read, guard, write and append, and which are proved to perform
    exactly `ChargeStep` and `UseStep`;
  - `Point` and `History` lookups;
  - `GetUserLock`.

A request is `Request(userId, amount, kind, updateMillis)`. The request's validation constraints
are the predicate `ValidRequest`, required by `Charge` and `Use`:
- a user id of at least 1;
- an amount of at least 100;
- both within the `long` range.

Guard failures are the typed outcomes `Rejected(BalanceLimitExceeded)`,
`Rejected(InsufficientBalance)` and `Rejected(BalanceExpired)`. In the source these are runtime
exceptions carrying the messages "최대잔고를 초과함", "포인트가 부족합니다." and "만료된 포인트입니다."
(meaning "maximum balance exceeded", "insufficient points" and "expired points"). On every
failure path the table and the history are unchanged.

Time is an explicit parameter. `readMillis` is the clock reading when the balance is read; it
stamps the zero balance of an unknown user. `writeMillis` is the clock reading when the balance is
written.

Where the code's stated intent and the code disagree, the model follows the code:
- **Expiry direction.** The code computes `updateMillis - requestMillis > 10000`
  (src/main/java/io/hhplus/tdd/point/entity/UserPoint.java:40). A record is therefore expired only
  when its own stamp lies more than 10 seconds *after* the request's stamp. A record stamped no
  later than the request is never expired (the second ensures of `UserPoints.IsExpired`). The
  comment on `use` (src/main/java/io/hhplus/tdd/point/service/PointService.java:83) says the
  opposite: use is refused once 10 seconds have passed since a charge. The unit test at
  src/test/java/io/hhplus/tdd/point/service/PointServiceTest.java:132 was written to the code's
  direction, so the model keeps that direction. The reversal is recorded under Findings.
- **Validation.** The code has no validation step of its own. It relies on `@Min` annotations on
  the request, so the model states them as the precondition `ValidRequest`.
- **Guard order.** `use` checks insufficiency before expiry. An insufficient and expired request
  reports `InsufficientBalance`.
- **Where the balance bound lives.** The table stores any amount. The bound 0 ≤ point ≤ 5000 is an
  invariant the service keeps (`PointLedger.LedgerValid`, part of `PointService.Valid`). It is not
  a check in the table.

## Model

| member | source | states |
|---|---|---|
| `UserPoints.WellFormed` | src/main/java/io/hhplus/tdd/point/entity/UserPoint.java:6-14 | the declared field constraints (positive id, balance in [0, 5000]) hold exactly when the id is positive and both guards let the zero amount through |
| `UserPoints.Empty` | src/main/java/io/hhplus/tdd/point/entity/UserPoint.java:15-17 | the record carries the given id and balance 0; it is well formed exactly when the id is positive |
| `UserPoints.CanCharge` | src/main/java/io/hhplus/tdd/point/entity/UserPoint.java:23-25 | true exactly when the amount fits in the headroom `5000 - point`, so landing on 5000 is allowed; a passing non-negative charge on a non-negative balance lands in [0, 5000] |
| `UserPoints.CanUse` | src/main/java/io/hhplus/tdd/point/entity/UserPoint.java:31-33 | true exactly when the balance is below the amount (inverted name); when false, a non-negative amount debited from a balance of at most 5000 lands in [0, 5000] |
| `UserPoints.IsExpired` | src/main/java/io/hhplus/tdd/point/entity/UserPoint.java:39-41 | expired exactly when the record's stamp is more than 10000 ms after the request's (a difference of exactly 10000 is not expired); a record stamped no later than the request is never expired |
| `UserPoints.IsExpiredAsDocumented` | src/main/java/io/hhplus/tdd/point/service/PointService.java:83 | expired exactly when the request comes more than 10000 ms after the record's stamp; a record stamped no earlier than the request is never expired; wherever it fires, `IsExpired` does not |
| `UserPoints.CanChargeAntitone` | src/main/java/io/hhplus/tdd/point/entity/UserPoint.java:24 | if a charge of `a` passes, every charge `0 <= b <= a` passes |
| `UserPoints.UseUndoesCharge` | src/main/java/io/hhplus/tdd/point/entity/UserPoint.java:23-33 | after a passing charge, using the same amount is never refused as insufficient and restores the balance |
| `UserPoints.CanChargeAsWritten` | src/main/java/io/hhplus/tdd/point/entity/UserPoint.java:23-25 | the guard with 64-bit `long` addition; agrees with `CanCharge` whenever the sum does not overflow |
| `UserPoints.ChargeGuardOverflow` | src/main/java/io/hhplus/tdd/point/entity/UserPoint.java:24 | on a balance of 1000 a charge of Long.MAX_VALUE passes the 64-bit guard although the true sum exceeds 5000, and the wrapped sum is negative |
| `PointTable.Lookup` | src/main/java/io/hhplus/tdd/database/UserPointTable.java:20 | a stored id yields exactly the stored record; an unknown id yields that id with balance 0; in a table keyed by id the result always carries the requested id |
| `PointTable.ReadAfterWrite` | src/main/java/io/hhplus/tdd/database/UserPointTable.java:20-26 | after writing an amount for an id, reading that id returns the written record |
| `PointTable.WriteLeavesOthers` | src/main/java/io/hhplus/tdd/database/UserPointTable.java:26 | writing one id leaves what every other id reads unchanged |
| `PointTable.UserPointTable.constructor` | src/main/java/io/hhplus/tdd/database/UserPointTable.java:16 | the table starts empty |
| `PointTable.UserPointTable.SelectById` | src/main/java/io/hhplus/tdd/database/UserPointTable.java:18-21 | returns the get-or-default record, changes nothing, and in a valid table the record has the requested id |
| `PointTable.UserPointTable.InsertOrUpdate` | src/main/java/io/hhplus/tdd/database/UserPointTable.java:23-28 | stores any amount as given, with no bound check; returns that record; the new table is the old one with only the id remapped to it |
| `LockRegistry.ComputeIfAbsent` | src/main/java/io/hhplus/tdd/point/service/PointService.java:33-35 | the id ends up registered with the returned lock; existing entries are never removed or replaced; a known id leaves the registry unchanged; a new id gets a fresh lock distinct from every other user's |
| `LockRegistry.ComputeIfAbsentIdempotent` | src/main/java/io/hhplus/tdd/point/service/PointService.java:33-35 | a second lookup of the same id returns the same lock and leaves the registry as it was |
| `LockRegistry.ComputeAll` | src/main/java/io/hhplus/tdd/point/service/PointService.java:33-35 | successive lookups keep every earlier id's lock and leave every looked-up id registered |
| `LockRegistry.ComputeAllKeepsLocks` | src/main/java/io/hhplus/tdd/point/service/PointService.java:31-35 | over any sequence of lookups, the registry grows by exactly the ids looked up, and locks stay distinct per user |
| `PointLedger.ValidRequest` | src/main/java/io/hhplus/tdd/point/dto/PointHistoryDto.java:11-14 | a valid request (id ≥ 1, amount ≥ 100, both `long`) names a user whose zero balance is well formed, and its amount can never be used from a zero balance |
| `PointLedger.EntryFor` | src/main/java/io/hhplus/tdd/point/service/PointService.java:72 | the history row carries the request's user id, amount, type and time stamp |
| `PointLedger.ChargeStep` | src/main/java/io/hhplus/tdd/point/service/PointService.java:56-77 | refused with `BalanceLimitExceeded` exactly when old balance + amount > 5000, and then nothing changes; otherwise stores and returns old balance + amount for the requester only, and appends exactly the request's row; balances stay in [0, 5000] |
| `PointLedger.UseStep` | src/main/java/io/hhplus/tdd/point/service/PointService.java:85-113 | `InsufficientBalance` exactly when the balance is below the amount; `BalanceExpired` exactly when the balance suffices but the record is expired; no change on either; otherwise stores and returns old balance - amount (≥ 0) for the requester only and appends exactly the request's row |
| `PointLedger.EntriesOf` | src/main/java/io/hhplus/tdd/point/service/PointService.java:47-49 | the result holds every history row of the user and only rows of that user |
| `PointLedger.EntriesOfAppend` | src/main/java/io/hhplus/tdd/point/service/PointService.java:72 | appending a row extends the history of that row's user by that row and no other user's |
| `PointLedger.CommittedHistory` | src/main/java/io/hhplus/tdd/point/service/PointService.java:72-107 | a committed request (the append of `charge` at line 72 or of `use` at line 107) adds exactly its own row to its user's history and leaves every other user's history unchanged |
| `PointLedger.Apply` | src/main/java/io/hhplus/tdd/point/service/PointService.java:56-113 | one call to `charge` or `use` keeps every balance in [0, 5000] and keyed by its id |
| `PointLedger.Run` | src/main/java/io/hhplus/tdd/point/service/PointService.java:59-60 | any sequence of charges and uses applied one at a time, as the per-user lock orders them, keeps every balance in [0, 5000] and keyed by its id |
| `PointLedger.RunKeepsInvariants` | src/main/java/io/hhplus/tdd/point/service/PointService.java:56-113 | over any sequence of charges and uses the history only grows, as an extension of the old history, by at most one row per request |
| `PointLedger.ServiceTestScenarios` | src/test/java/io/hhplus/tdd/point/service/PointServiceTest.java:41-144 | 1000 + 3000 commits 4000; 1000 + 5000 is refused unchanged; 1000 - 100 commits 900; 1000 - 2000 is refused as insufficient; a record stamped 11000 ms after the request is refused as expired |
| `PointLedger.ExpiryDirectionReversed` | src/main/java/io/hhplus/tdd/point/entity/UserPoint.java:40 | a balance of 1000 written at 0 and a use of 100 requested at 11000: the compiled check is not expired and the use commits 900, while the documented check is expired |
| `PointLedger.SerialisedScenario` | src/main/java/io/hhplus/tdd/point/service/PointService.java:59-60 | the six requests charge 4000, use 2000, use 1000, charge 500, use 1500 and charge 2000 are applied one at a time to a new user; the final balance is 2000, with six history rows |
| `PointServices.PointService.constructor` | src/main/java/io/hhplus/tdd/point/service/PointService.java:28-31 | the service starts over the given table, with an empty history and an empty lock registry |
| `PointServices.PointService.GetUserLock` | src/main/java/io/hhplus/tdd/point/service/PointService.java:33-35 | performs `ComputeIfAbsent` on the registry; the returned lock is the one registered for the id; the registry only grows |
| `PointServices.PointService.Point` | src/main/java/io/hhplus/tdd/point/service/PointService.java:40-42 | returns the table's get-or-default record for the id; for a positive id the balance lies in [0, 5000] |
| `PointServices.PointService.History` | src/main/java/io/hhplus/tdd/point/service/PointService.java:47-49 | returns the user's rows of the history, each for that user |
| `PointServices.PointService.Charge` | src/main/java/io/hhplus/tdd/point/service/PointService.java:56-77 | the new table and history, and the returned outcome, are those of `ChargeStep` on the old ones; the lock registry is extended for the user; the invariant is kept |
| `PointServices.PointService.Use` | src/main/java/io/hhplus/tdd/point/service/PointService.java:85-113 | the new table and history, and the returned outcome, are those of `UseStep` on the old ones; the lock registry is extended for the user; the invariant is kept |

## Findings

| source | as written | input that shows it | evidently intended | confidence | as-written member | corrected member |
|---|---|---|---|---|---|---|
| src/main/java/io/hhplus/tdd/point/entity/UserPoint.java:24 | `point + amount` is a 64-bit `long` sum, which wraps on overflow before it is compared with 5000; the request's amount has a lower bound of 100 and no upper bound | balance 1000, charge 9223372036854775807: the sum wraps to -9223372036854774809, the guard passes, and PointService.java:69 stores that negative balance | refuse every charge whose true sum exceeds 5000 | not executed | `UserPoints.CanChargeAsWritten`, `UserPoints.ChargeGuardOverflow` | `UserPoints.CanCharge`, `PointLedger.ChargeStep` |
| src/main/java/io/hhplus/tdd/point/entity/UserPoint.java:40 | `updateMillis - requestMillis > 10000`: expired only when the record is stamped more than 10 s after the request; both stamps are taken from the clock (UserPointTable.java:25, PointHistoryDto.java:22), so a record written before the request never expires | balance 1000 written at 0, use of 100 requested at 11000: not expired, the use commits 900 | refuse a use once more than 10 s have passed since the balance was written, as the comment at PointService.java:83 says | not executed | `UserPoints.IsExpired`, `PointLedger.ExpiryDirectionReversed` | `UserPoints.IsExpiredAsDocumented` |

## Left out

- `UserPoints.IsExpired`, `PointLedger.UseStep`: keep the compiled expiry direction, which the unit test at PointServiceTest.java:132 was written to. The documented rule (refuse a use more than 10 s after the last write) is not what `UseStep` does; it is stated only by `UserPoints.IsExpiredAsDocumented` (see Findings).
- `PointLedger.ChargeStep`: uses the corrected guard `CanCharge` on unbounded integers. The 64-bit wrap-around of the source's guard and stored sum is captured only by `UserPoints.CanChargeAsWritten` (see Findings).
- The random latency of the table (`throttle`, UserPointTable.java:30-36) has no logical effect and is not modelled.
- Real lock and unlock calls, thread interleavings and blocking are not modelled. Requests run one at a time. For requests on the same user this is what the per-user locks provide. For requests on different users it is an assumption of the model: in the source they run concurrently on a plain `HashMap` (UserPointTable.java:16), whose unsynchronised updates are not modelled. A lock is only an identity token in the registry.
- `System.currentTimeMillis()` is not modelled. Its readings are the parameters `now`, `readMillis` and `writeMillis`.
- The framework wiring (dependency injection, `@Validated`/`@Valid` interception, logging) is not modelled. The `@Min` constraints are the precondition `ValidRequest`.
- The history table is not part of this model. History is an append-only sequence of rows `(userId, amount, type, updateMillis)`. The row id that the history table assigns is not modelled. `History` is the filter `EntriesOf` over that sequence.
- `UserPointDto` and the `PointHistory`/`PointHistoryDto` classes are not modelled as classes. They carry no logic, and their fields are the datatypes `UserPoint`, `Request` and `HistoryEntry`.
- Exception messages are not modelled. Failures are the typed values of `PointError`.
- Java `long` width is modelled only in the charge guard. The use subtraction cannot overflow for a balance in [0, 5000] and an amount in the `long` range.
- `UserPoints.IsExpired`, `PointLedger.UseStep`: the expiry difference is computed on unbounded integers, while the source subtracts two `long`s. They diverge only for stamps far from any clock reading. For example, a record stamped 1700000000000 and a use request stamped Long.MIN_VALUE: the model refuses with `BalanceExpired`, but in the source the difference wraps to a negative number and the use commits.
