/** The balance record of one user and the guards the service evaluates on it. */
module UserPoints {

  /** Largest balance a user may hold. */
  const MAX_BALANCE: int := 5000
  /** Width, in milliseconds, of the window used by the expiry guard. */
  const EXPIRY_MILLIS: int := 10000
  /** Bounds of a signed 64-bit `long`. */
  const LONG_MIN: int := -0x8000_0000_0000_0000
  const LONG_MAX: int := 0x7FFF_FFFF_FFFF_FFFF

  /** A user's balance `point`, stamped with the time `updateMillis` of its last write. */
  datatype UserPoint = UserPoint(id: int, point: int, updateMillis: int)

  /**
   * The field constraints the record declares: a positive id and a balance in [0, MAX_BALANCE].
   * Equivalently, both guards let the zero amount through.
   */
  predicate WellFormed(p: UserPoint): (ok: bool)
    ensures ok <==> p.id >= 1 && CanCharge(p, 0) && !CanUse(p, 0)
  {
    p.id >= 1 && 0 <= p.point <= MAX_BALANCE
  }

  /** The zero balance given to a user who has no record yet; `now` is the clock reading. */
  function Empty(id: int, now: int): (p: UserPoint)
    ensures p.id == id && p.point == 0 && p.updateMillis == now
    ensures WellFormed(p) <==> id >= 1
  {
    UserPoint(id, 0, now)
  }

  /** Maximum-balance check: true when charging `amount` lands at or below MAX_BALANCE. */
  function CanCharge(p: UserPoint, amount: int): (ok: bool)
    ensures ok <==> amount <= MAX_BALANCE - p.point
    ensures ok && p.point >= 0 && amount >= 0 ==> 0 <= p.point + amount <= MAX_BALANCE
  {
    p.point + amount <= MAX_BALANCE
  }

  /** Balance check. Despite its name it is true when the balance is INSUFFICIENT for `amount`. */
  function CanUse(p: UserPoint, amount: int): (insufficient: bool)
    ensures insufficient <==> p.point < amount
    ensures !insufficient && p.point <= MAX_BALANCE && amount >= 0 ==> 0 <= p.point - amount <= MAX_BALANCE
  {
    p.point - amount < 0
  }

  /**
   * Expiry check, in the direction the code computes it: the record counts as expired when its
   * own stamp lies more than EXPIRY_MILLIS AFTER the request's stamp.
   */
  function IsExpired(p: UserPoint, requestMillis: int): (expired: bool)
    ensures expired <==> p.updateMillis > requestMillis + EXPIRY_MILLIS
    ensures p.updateMillis <= requestMillis ==> !expired
  {
    p.updateMillis - requestMillis > EXPIRY_MILLIS
  }

  /**
   * Expiry check in the direction the code's own comment describes: the record counts as expired
   * once more than EXPIRY_MILLIS have passed between its stamp and the request. Where it fires,
   * the check as compiled never does.
   */
  function IsExpiredAsDocumented(p: UserPoint, requestMillis: int): (expired: bool)
    ensures expired <==> requestMillis > p.updateMillis + EXPIRY_MILLIS
    ensures p.updateMillis >= requestMillis ==> !expired
    ensures expired ==> !IsExpired(p, requestMillis)
  {
    requestMillis - p.updateMillis > EXPIRY_MILLIS
  }

  /** A smaller charge is allowed whenever a larger one is. */
  lemma CanChargeAntitone(p: UserPoint, a: int, b: int)
    requires CanCharge(p, a) && 0 <= b <= a
    ensures CanCharge(p, b)
  {
  }

  /** Using back what was just charged is never refused and restores the balance. */
  lemma UseUndoesCharge(p: UserPoint, amount: int, now: int)
    requires WellFormed(p) && amount >= 0 && CanCharge(p, amount)
    ensures var charged := UserPoint(p.id, p.point + amount, now);
      WellFormed(charged) && !CanUse(charged, amount) && charged.point - amount == p.point
  {
  }

  // ---- 64-bit arithmetic of the charge guard ----

  predicate IsLong(x: int)
  {
    LONG_MIN <= x <= LONG_MAX
  }

  /** Two's-complement wrap-around of a mathematical integer into the `long` range. */
  function Wrap64(x: int): (r: int)
    ensures IsLong(r)
    ensures IsLong(x) ==> r == x
    ensures (x - r) % 0x1_0000_0000_0000_0000 == 0
  {
    (x - LONG_MIN) % 0x1_0000_0000_0000_0000 + LONG_MIN
  }

  /** The maximum-balance check with the addition done in 64-bit `long` arithmetic, as compiled. */
  function CanChargeAsWritten(p: UserPoint, amount: int): (ok: bool)
    requires IsLong(p.point) && IsLong(amount)
    ensures IsLong(p.point + amount) ==> (ok <==> CanCharge(p, amount))
  {
    Wrap64(p.point + amount) <= MAX_BALANCE
  }

  /**
   * The compiled guard lets a charge of Long.MAX_VALUE through on a balance of 1000: the sum wraps
   * to a negative number, which is "at most 5000", and that negative number is what gets stored.
   */
  lemma ChargeGuardOverflow()
    ensures var p := UserPoint(10, 1000, 0);
      && WellFormed(p)
      && CanChargeAsWritten(p, LONG_MAX)
      && !CanCharge(p, LONG_MAX)
      && Wrap64(p.point + LONG_MAX) < 0
  {
    var p := UserPoint(10, 1000, 0);
    assert Wrap64(p.point + LONG_MAX) == LONG_MIN + 999;
  }
}
