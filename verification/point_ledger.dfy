/**
 * What one charge or use does to the balances and the history, as functions of the state before
 * it. The service class applies exactly these transitions, one request at a time.
 */
module PointLedger {
  import opened UserPoints
  import opened PointTable

  /** Smallest amount a request may charge or use. */
  const MIN_UNIT: int := 100
  /** Smallest user id a request may name. */
  const MIN_USER_ID: int := 1

  datatype TransactionType = CHARGE | USE

  /** A charge or use request: who, how much, which kind, and the request's own time stamp. */
  datatype Request = Request(userId: int, amount: int, kind: TransactionType, updateMillis: int)

  /** The validation constraints on a request's `long` fields. */
  predicate ValidRequest(req: Request): (valid: bool)
    ensures valid ==> IsLong(req.amount) && IsLong(req.userId)
    ensures valid ==> forall now :: WellFormed(Empty(req.userId, now)) && CanUse(Empty(req.userId, now), req.amount)
  {
    MIN_USER_ID <= req.userId <= LONG_MAX && MIN_UNIT <= req.amount <= LONG_MAX
  }

  /** One row of the append-only history. */
  datatype HistoryEntry = HistoryEntry(userId: int, amount: int, kind: TransactionType, updateMillis: int)

  /** The history row recorded for a committed request: the request's own four fields. */
  function EntryFor(req: Request): (e: HistoryEntry)
    ensures e.userId == req.userId && e.amount == req.amount
    ensures e.kind == req.kind && e.updateMillis == req.updateMillis
  {
    HistoryEntry(req.userId, req.amount, req.kind, req.updateMillis)
  }

  /** The three ways a guard can refuse a request. */
  datatype PointError =
    | BalanceLimitExceeded   // the charge would push the balance above MAX_BALANCE
    | InsufficientBalance    // the use would push the balance below zero
    | BalanceExpired         // the record failed the expiry check

  datatype Outcome = Committed(record: UserPoint) | Rejected(error: PointError)

  /** The balances of all users and the history of all committed requests. */
  datatype Ledger = Ledger(points: map<int, UserPoint>, history: seq<HistoryEntry>)

  datatype Transition = Transition(after: Ledger, outcome: Outcome)

  /** Every stored record sits under its own id and respects the record's field constraints. */
  predicate LedgerValid(l: Ledger)
  {
    forall id :: id in l.points ==> l.points[id].id == id && WellFormed(l.points[id])
  }

  /**
   * `t` committed `balance` for the requester, stamped `writeMillis`: that record is returned and
   * stored, no other user's record changed, and exactly the request's row was appended.
   */
  predicate CommitsBalance(l: Ledger, t: Transition, req: Request, balance: int, writeMillis: int)
  {
    && t.outcome == Committed(UserPoint(req.userId, balance, writeMillis))
    && t.after.points.Keys == l.points.Keys + {req.userId}
    && t.after.points[req.userId] == t.outcome.record
    && (forall id :: id in l.points && id != req.userId ==> t.after.points[id] == l.points[id])
    && t.after.history == l.history + [EntryFor(req)]
  }

  /**
   * Charge: read the requester's record (a zero balance stamped `readMillis` if absent), refuse if
   * the balance would exceed MAX_BALANCE, otherwise store the sum stamped `writeMillis` and
   * append the request to the history.
   */
  function ChargeStep(l: Ledger, req: Request, readMillis: int, writeMillis: int): (t: Transition)
    requires LedgerValid(l) && ValidRequest(req)
    ensures var cur := Lookup(l.points, req.userId, readMillis);
      && (t.outcome.Rejected? <==> cur.point + req.amount > MAX_BALANCE)
      && (t.outcome.Rejected? ==> t.outcome.error == BalanceLimitExceeded && t.after == l)
      && (t.outcome.Committed? ==> CommitsBalance(l, t, req, cur.point + req.amount, writeMillis))
    ensures LedgerValid(t.after)
  {
    var cur := Lookup(l.points, req.userId, readMillis);
    if !CanCharge(cur, req.amount) then
      Transition(l, Rejected(BalanceLimitExceeded))
    else
      var p := UserPoint(cur.id, cur.point + req.amount, writeMillis);
      Transition(Ledger(l.points[cur.id := p], l.history + [EntryFor(req)]), Committed(p))
  }

  /**
   * Use: read the requester's record, refuse if the balance is insufficient, then refuse if the
   * record is expired, otherwise store the difference stamped `writeMillis` and append the request.
   */
  function UseStep(l: Ledger, req: Request, readMillis: int, writeMillis: int): (t: Transition)
    requires LedgerValid(l) && ValidRequest(req)
    ensures var cur := Lookup(l.points, req.userId, readMillis);
      && (t.outcome == Rejected(InsufficientBalance) <==> cur.point < req.amount)
      && (t.outcome == Rejected(BalanceExpired) <==>
            req.amount <= cur.point && cur.updateMillis - req.updateMillis > EXPIRY_MILLIS)
      && (t.outcome.Rejected? ==> t.outcome.error != BalanceLimitExceeded && t.after == l)
      && (t.outcome.Committed? ==> CommitsBalance(l, t, req, cur.point - req.amount, writeMillis))
    ensures LedgerValid(t.after)
  {
    var cur := Lookup(l.points, req.userId, readMillis);
    if CanUse(cur, req.amount) then
      Transition(l, Rejected(InsufficientBalance))
    else if IsExpired(cur, req.updateMillis) then
      Transition(l, Rejected(BalanceExpired))
    else
      var p := UserPoint(cur.id, cur.point - req.amount, writeMillis);
      Transition(Ledger(l.points[cur.id := p], l.history + [EntryFor(req)]), Committed(p))
  }

  /** The history rows of user `id`, in insertion order. */
  function EntriesOf(h: seq<HistoryEntry>, id: int): (r: seq<HistoryEntry>)
    ensures |r| <= |h|
    ensures forall i :: 0 <= i < |r| ==> r[i].userId == id && r[i] in h
    ensures forall e :: e in h && e.userId == id ==> e in r
  {
    if h == [] then []
    else (if h[0].userId == id then [h[0]] else []) + EntriesOf(h[1..], id)
  }

  /** Appending a row extends the history of that row's user by that row, and no other user's. */
  lemma {:induction false} EntriesOfAppend(h: seq<HistoryEntry>, e: HistoryEntry, id: int)
    ensures EntriesOf(h + [e], id) == EntriesOf(h, id) + (if e.userId == id then [e] else [])
  {
    if h == [] {
      assert h + [e] == [e];
      assert EntriesOf([e], id) == (if e.userId == id then [e] else []) + EntriesOf([], id);
    } else {
      assert (h + [e])[1..] == h[1..] + [e];
      EntriesOfAppend(h[1..], e, id);
    }
  }

  /**
   * A committed request adds exactly its own row to its user's history; the history of every
   * other user reads the same as before.
   */
  lemma CommittedHistory(l: Ledger, t: Transition, req: Request, balance: int, writeMillis: int, id: int)
    requires CommitsBalance(l, t, req, balance, writeMillis)
    ensures id == req.userId ==> EntriesOf(t.after.history, id) == EntriesOf(l.history, id) + [EntryFor(req)]
    ensures id != req.userId ==> EntriesOf(t.after.history, id) == EntriesOf(l.history, id)
  {
    EntriesOfAppend(l.history, EntryFor(req), id);
  }

  // ---- sequences of requests, applied one at a time ----

  /** Which service method is called. */
  datatype Operation = ChargeOp | UseOp

  /**
   * One call into the service: the method, the request, and the two clock readings it sees.
   * The method is kept apart from `req.kind` because the service never compares the two: it
   * logs the request's type as given.
   */
  datatype Call = Call(op: Operation, req: Request, readMillis: int, writeMillis: int)

  function Apply(l: Ledger, c: Call): (t: Transition)
    requires LedgerValid(l) && ValidRequest(c.req)
    ensures LedgerValid(t.after)
  {
    match c.op
    case ChargeOp => ChargeStep(l, c.req, c.readMillis, c.writeMillis)
    case UseOp => UseStep(l, c.req, c.readMillis, c.writeMillis)
  }

  predicate AllValid(calls: seq<Call>)
  {
    forall i :: 0 <= i < |calls| ==> ValidRequest(calls[i].req)
  }

  /** The ledger after applying `calls` in order, each to the ledger the previous one left. */
  function Run(l: Ledger, calls: seq<Call>): (r: Ledger)
    requires LedgerValid(l) && AllValid(calls)
    ensures LedgerValid(r)
    decreases |calls|
  {
    if calls == [] then l
    else Run(Apply(l, calls[0]).after, calls[1..])
  }

  /**
   * However many requests are applied in sequence, the history is only ever appended to, by at
   * most one row per request.
   */
  lemma {:induction false} RunKeepsInvariants(l: Ledger, calls: seq<Call>)
    requires LedgerValid(l) && AllValid(calls)
    ensures l.history <= Run(l, calls).history
    ensures |Run(l, calls).history| <= |l.history| + |calls|
    decreases |calls|
  {
    if calls != [] {
      var next := Apply(l, calls[0]).after;
      assert l.history <= next.history;
      RunKeepsInvariants(next, calls[1..]);
    }
  }

  /** The scenarios of the service's unit tests, on a user 10 holding 1000. */
  lemma ServiceTestScenarios()
    ensures var l := Ledger(map[10 := UserPoint(10, 1000, 0)], []);
      && LedgerValid(l)
      && ChargeStep(l, Request(10, 3000, CHARGE, 0), 0, 1).outcome == Committed(UserPoint(10, 4000, 1))
      && ChargeStep(l, Request(10, 5000, CHARGE, 0), 0, 1) == Transition(l, Rejected(BalanceLimitExceeded))
      && UseStep(l, Request(10, 100, USE, 0), 0, 1).outcome == Committed(UserPoint(10, 900, 1))
      && UseStep(l, Request(10, 2000, USE, 0), 0, 1) == Transition(l, Rejected(InsufficientBalance))
    ensures var l := Ledger(map[10 := UserPoint(10, 1000, 11000)], []);
      && LedgerValid(l)
      && UseStep(l, Request(10, 100, USE, 0), 0, 1) == Transition(l, Rejected(BalanceExpired))
  {
  }

  /**
   * A balance written at 0 and used 11000 ms later: the compiled expiry check lets the use commit,
   * while the documented check refuses it as expired.
   */
  lemma ExpiryDirectionReversed()
    ensures var l := Ledger(map[10 := UserPoint(10, 1000, 0)], []);
      && LedgerValid(l)
      && !IsExpired(l.points[10], 11000)
      && UseStep(l, Request(10, 100, USE, 11000), 11000, 11001).outcome == Committed(UserPoint(10, 900, 11001))
      && IsExpiredAsDocumented(l.points[10], 11000)
  {
  }

  /**
   * Requests for one user applied one after another, as the per-user lock serialises them:
   * from no record, charge 4000, use 2000, use 1000, charge 500, use 1500, charge 2000 ends at 2000.
   */
  lemma SerialisedScenario()
    ensures var calls := [
        Call(ChargeOp, Request(7, 4000, CHARGE, 1), 1, 1),
        Call(UseOp, Request(7, 2000, USE, 2), 2, 2),
        Call(UseOp, Request(7, 1000, USE, 3), 3, 3),
        Call(ChargeOp, Request(7, 500, CHARGE, 4), 4, 4),
        Call(UseOp, Request(7, 1500, USE, 5), 5, 5),
        Call(ChargeOp, Request(7, 2000, CHARGE, 6), 6, 6)];
      && AllValid(calls)
      && Run(Ledger(map[], []), calls).points[7] == UserPoint(7, 2000, 6)
      && |Run(Ledger(map[], []), calls).history| == 6
  {
  }
}
