/**
 * The `receptions' table (internal/db/reception.go) as a map from id to row,
 * and the selections and updates the store performs on it.
 */
module ReceptionTable {
  import opened Models
  import Sql

  type Table = map<string, Reception>

  /** Every row is stored under its own id, the PRIMARY KEY. */
  ghost predicate KeyedById(t: Table)
  {
    forall k :: k in t ==> t[k].id == k
  }

  /** `WHERE pvz_id = ?' */
  function OfPvz(t: Table, pvzId: string): set<string>
  {
    set k | k in t && t[k].pvzId == pvzId
  }

  /** `WHERE pvz_id = ? AND status = 'in_progress'' */
  function OpenOf(t: Table, pvzId: string): set<string>
  {
    set k | k in t && t[k].pvzId == pvzId && t[k].status == InProgress
  }

  /** A reception CloseLastReception and DeleteLastProduct may pick for the PVZ. */
  predicate IsNewestOpen(t: Table, pvzId: string, id: string)
  {
    Sql.IsNewest(t, ReceptionTime, OpenOf(t, pvzId), id)
  }

  /** `UPDATE receptions SET status = 'close' WHERE id = ?' */
  function CloseRow(t: Table, id: string): Table
    requires id in t
  {
    t[id := t[id].(status := Closed)]
  }

  /** `INSERT INTO receptions' of a row whose id is not yet taken. */
  function InsertRow(t: Table, r: Reception): Table
    requires r.id !in t
  {
    t[r.id := r]
  }

  /** No row that is not in_progress becomes in_progress, and no row disappears. */
  ghost predicate NeverReopens(before: Table, after: Table)
  {
    forall k :: k in before ==>
      k in after && (after[k].status == InProgress ==> before[k].status == InProgress)
  }

  /** Closing an open reception of `pvzId' takes exactly that id out of its open set. */
  lemma CloseRemovesFromOpen(t: Table, pvzId: string, id: string)
    requires id in OpenOf(t, pvzId)
    ensures OpenOf(CloseRow(t, id), pvzId) == OpenOf(t, pvzId) - {id}
    ensures |OpenOf(CloseRow(t, id), pvzId)| == |OpenOf(t, pvzId)| - 1
  {
    var after := CloseRow(t, id);
    assert OpenOf(after, pvzId) == OpenOf(t, pvzId) - {id} by {
      forall k ensures k in OpenOf(after, pvzId) <==> k in OpenOf(t, pvzId) - {id} {
        if k == id {
          assert after[k].status == Closed;
        }
      }
    }
  }

  /** Closing a reception of one PVZ leaves the open set of every other PVZ as it was. */
  lemma CloseKeepsOtherPvzs(t: Table, pvzId: string, id: string, other: string)
    requires id in OpenOf(t, pvzId) && other != pvzId
    ensures OpenOf(CloseRow(t, id), other) == OpenOf(t, other)
  {
    var after := CloseRow(t, id);
    forall k ensures k in OpenOf(after, other) <==> k in OpenOf(t, other) {
      if k == id {
        assert t[k].pvzId == pvzId;
      }
    }
  }

  /** With one open reception, the close empties the open set: a second close fails. */
  lemma CloseOfOnlyOpen(t: Table, pvzId: string, id: string)
    requires OpenOf(t, pvzId) == {id}
    ensures OpenOf(CloseRow(t, id), pvzId) == {}
  {
    CloseRemovesFromOpen(t, pvzId, id);
  }

  /** The close leaves every field but `status' and every other row unchanged, and reopens nothing. */
  lemma CloseIsOneWay(t: Table, id: string)
    requires id in t
    ensures NeverReopens(t, CloseRow(t, id))
    ensures CloseRow(t, id).Keys == t.Keys
    ensures var r := CloseRow(t, id)[id];
            r.status == Closed && r.id == t[id].id && r.dateTime == t[id].dateTime && r.pvzId == t[id].pvzId
  {
  }

  /**
   * Nothing in the insert guards against a second open reception: a fresh
   * in_progress row for a PVZ that already has one leaves two open.
   */
  lemma InsertAddsOpen(t: Table, r: Reception)
    requires r.id !in t && r.status == InProgress
    ensures OpenOf(InsertRow(t, r), r.pvzId) == OpenOf(t, r.pvzId) + {r.id}
    ensures |OpenOf(InsertRow(t, r), r.pvzId)| == |OpenOf(t, r.pvzId)| + 1
  {
    var after := InsertRow(t, r);
    forall k ensures k in OpenOf(after, r.pvzId) <==> k in OpenOf(t, r.pvzId) + {r.id} {
    }
    assert OpenOf(after, r.pvzId) == OpenOf(t, r.pvzId) + {r.id};
  }

  /** Inserting a row never turns an existing row back to in_progress. */
  lemma InsertNeverReopens(t: Table, r: Reception)
    requires r.id !in t
    ensures NeverReopens(t, InsertRow(t, r))
  {
  }

  /** NeverReopens composes, so it holds across any run of store operations. */
  lemma NeverReopensTransitive(a: Table, b: Table, c: Table)
    requires NeverReopens(a, b) && NeverReopens(b, c)
    ensures NeverReopens(a, c)
  {
  }
}
