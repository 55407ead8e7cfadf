/** The in-memory balance store: a map from user id to that user's record. */
module PointTable {
  import opened UserPoints

  /** Every stored record sits under its own id. */
  predicate Keyed(m: map<int, UserPoint>)
  {
    forall id :: id in m ==> m[id].id == id
  }

  /** Get-or-default lookup: the stored record, or the zero balance stamped `now` for an unknown id. */
  function Lookup(m: map<int, UserPoint>, id: int, now: int): (p: UserPoint)
    ensures id in m ==> p == m[id]
    ensures id !in m ==> p.id == id && p.point == 0 && p.updateMillis == now
    ensures Keyed(m) ==> p.id == id
  {
    if id in m then m[id] else Empty(id, now)
  }

  /** After an overwrite, the id reads back the amount that was written. */
  lemma ReadAfterWrite(m: map<int, UserPoint>, id: int, amount: int, now: int, later: int)
    ensures Lookup(m[id := UserPoint(id, amount, now)], id, later) == UserPoint(id, amount, now)
  {
  }

  /** An overwrite of one id leaves what every other id reads untouched. */
  lemma WriteLeavesOthers(m: map<int, UserPoint>, id: int, p: UserPoint, other: int, now: int)
    requires other != id
    ensures Lookup(m[id := p], other, now) == Lookup(m, other, now)
  {
  }

  class UserPointTable {
    var table: map<int, UserPoint>

    ghost predicate Valid()
      reads this
    {
      Keyed(table)
    }

    constructor ()
      ensures Valid() && table == map[]
    {
      table := map[];
    }

    /** Reads the record of `id`; an unknown id yields the zero balance stamped `now`. */
    method SelectById(id: int, now: int) returns (p: UserPoint)
      ensures p == Lookup(table, id, now)
      ensures Valid() ==> p.id == id
    {
      if id in table {
        p := table[id];
      } else {
        p := Empty(id, now);
      }
    }

    /** Unconditionally stores `amount` as the balance of `id`, stamped `now`, and returns the record. */
    method InsertOrUpdate(id: int, amount: int, now: int) returns (p: UserPoint)
      requires Valid()
      modifies this
      ensures Valid()
      ensures p.id == id && p.point == amount && p.updateMillis == now
      ensures table == old(table)[id := p]
    {
      p := UserPoint(id, amount, now);
      table := table[id := p];
    }
  }
}
