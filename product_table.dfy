/**
 * The `products' table (internal/db/product.go) as a map from id to row, and
 * the "remove the newest product of a reception" step the store repeats.
 */
module ProductTable {
  import opened Models
  import Sql

  type Table = map<string, Product>

  /** Every row is stored under its own id, the PRIMARY KEY. */
  ghost predicate KeyedById(t: Table)
  {
    forall k :: k in t ==> t[k].id == k
  }

  /** `WHERE reception_id = ?' */
  function OfReception(t: Table, receptionId: string): set<string>
  {
    set k | k in t && t[k].receptionId == receptionId
  }

  /** A product DeleteLastProduct may pick in the reception. */
  predicate IsNewestIn(t: Table, receptionId: string, id: string)
  {
    Sql.IsNewest(t, ProductTime, OfReception(t, receptionId), id)
  }

  /** Deleting one product of a reception takes exactly that id out of the reception. */
  lemma DeleteRemovesOne(t: Table, receptionId: string, id: string)
    requires id in OfReception(t, receptionId)
    ensures OfReception(t - {id}, receptionId) == OfReception(t, receptionId) - {id}
    ensures |OfReception(t - {id}, receptionId)| == |OfReception(t, receptionId)| - 1
  {
    assert OfReception(t - {id}, receptionId) == OfReception(t, receptionId) - {id};
  }

  /** Deleting a product of one reception leaves every other reception's products as they were. */
  lemma DeleteKeepsOtherReceptions(t: Table, receptionId: string, id: string, other: string)
    requires id in OfReception(t, receptionId) && other != receptionId
    ensures OfReception(t - {id}, other) == OfReception(t, other)
  {
    forall k ensures k in OfReception(t - {id}, other) <==> k in OfReception(t, other) {
      if k == id {
        assert t[k].receptionId == receptionId;
      }
    }
  }

  /**
   * `removed' lists the products that successive DeleteLastProduct calls on
   * the same reception remove: each one is a newest product still present.
   */
  ghost predicate IsLifoRun(t: Table, receptionId: string, removed: seq<string>)
    decreases |removed|
  {
    |removed| == 0 ||
    (IsNewestIn(t, receptionId, removed[0]) && IsLifoRun(t - {removed[0]}, receptionId, removed[1..]))
  }

  /**
   * A run of deletions on a reception holding N products removes N distinct
   * products of it, each no newer than the one removed before it, and leaves
   * the reception empty, so call N+1 finds no product.
   */
  lemma {:induction false} LifoRunDrains(t: Table, receptionId: string, removed: seq<string>)
    requires IsLifoRun(t, receptionId, removed)
    requires |removed| == |OfReception(t, receptionId)|
    ensures forall i :: 0 <= i < |removed| ==> removed[i] in OfReception(t, receptionId)
    ensures forall i, j :: 0 <= i < j < |removed| ==> removed[i] != removed[j]
    ensures forall i, j :: 0 <= i < j < |removed| ==>
              Sql.TextLessEq(t[removed[j]].dateTime, t[removed[i]].dateTime)
    ensures OfReception(t - (set k | k in removed), receptionId) == {}
    decreases |removed|
  {
    if |removed| > 0 {
      var first, rest := removed[0], removed[1..];
      var t' := t - {first};
      DeleteRemovesOne(t, receptionId, first);
      LifoRunDrains(t', receptionId, rest);
      forall i | 0 <= i < |removed| ensures removed[i] in OfReception(t, receptionId) {
        if i > 0 { assert removed[i] == rest[i - 1]; }
      }
      forall i, j | 0 <= i < j < |removed|
        ensures removed[i] != removed[j]
        ensures Sql.TextLessEq(t[removed[j]].dateTime, t[removed[i]].dateTime)
      {
        assert removed[j] == rest[j - 1];
        if i > 0 {
          assert removed[i] == rest[i - 1];
        } else {
          assert rest[j - 1] in OfReception(t', receptionId);
        }
      }
      assert t - (set k | k in removed) == t' - (set k | k in rest);
    } else {
      assert OfReception(t, receptionId) == {};
    }
  }

  /** A run extends by one more deletion of a newest product still present. */
  lemma {:induction false} LifoRunExtend(t: Table, receptionId: string, removed: seq<string>, id: string)
    requires IsLifoRun(t, receptionId, removed)
    requires IsNewestIn(t - (set k | k in removed), receptionId, id)
    ensures IsLifoRun(t, receptionId, removed + [id])
    decreases |removed|
  {
    if |removed| == 0 {
      assert t - (set k | k in removed) == t;
      assert (removed + [id])[1..] == [];
    } else {
      var first := removed[0];
      assert t - {first} - (set k | k in removed[1..]) == t - (set k | k in removed);
      LifoRunExtend(t - {first}, receptionId, removed[1..], id);
      assert (removed + [id])[1..] == removed[1..] + [id];
    }
  }

  /** Some run of deletions drains every reception: the N calls can all succeed. */
  lemma {:induction false} LifoRunExists(t: Table, receptionId: string)
    ensures exists removed :: IsLifoRun(t, receptionId, removed) && |removed| == |OfReception(t, receptionId)|
    decreases |OfReception(t, receptionId)|
  {
    var open := OfReception(t, receptionId);
    if open == {} {
      assert IsLifoRun(t, receptionId, []);
    } else {
      Sql.NewestExists(t, ProductTime, open);
      var first :| Sql.IsNewest(t, ProductTime, open, first);
      assert IsNewestIn(t, receptionId, first);
      DeleteRemovesOne(t, receptionId, first);
      LifoRunExists(t - {first}, receptionId);
      var rest :| IsLifoRun(t - {first}, receptionId, rest) && |rest| == |OfReception(t - {first}, receptionId)|;
      assert ([first] + rest)[1..] == rest;
      assert IsLifoRun(t, receptionId, [first] + rest);
    }
  }
}
