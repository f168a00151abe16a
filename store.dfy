/**
 * The persistence layer of the pickup-point service (package internal/db):
 * one store holding the four tables of the schema (internal/db/db.go), each
 * a map from the PRIMARY KEY `id' to the row.  Every exported db function is
 * a member of Store; an insert fails exactly where a PRIMARY KEY or UNIQUE
 * constraint of the schema rejects it, and the foreign keys are not enforced
 * (the connection never turns them on).
 */
module Db {
  import opened Models
  import Sql
  import GoInt
  import ReceptionTable
  import ProductTable
  import PvzTable
  import UserTable

  class Store {
    var users: map<string, User>
    var pvzs: map<string, Pvz>
    var receptions: map<string, Reception>
    var products: map<string, Product>

    /** The schema's key constraints. */
    ghost predicate Valid()
      reads this
    {
      UserTable.KeyedById(users) && UserTable.EmailsUnique(users) &&
      PvzTable.KeyedById(pvzs) &&
      ReceptionTable.KeyedById(receptions) &&
      ProductTable.KeyedById(products)
    }

    /** InitDB on a fresh database: createTables leaves four empty tables. */
    constructor ()
      ensures Valid()
      ensures users == map[] && pvzs == map[] && receptions == map[] && products == map[]
    {
      users, pvzs, receptions, products := map[], map[], map[], map[];
    }

    // ---------------------------------------------------------------- receptions

    /** INSERT INTO receptions; only the PRIMARY KEY can reject it. */
    method CreateReception(id: string, dateTime: string, pvzId: string, status: string) returns (out: Outcome)
      requires Valid()
      modifies this
      ensures Valid()
      ensures out.Failed? <==> id in old(receptions)
      ensures out.Failed? ==> out.error == Duplicate("receptions", "id") && receptions == old(receptions)
      ensures out.Done? ==>
                receptions == ReceptionTable.InsertRow(old(receptions), Reception(id, dateTime, pvzId, status))
      ensures out.Done? ==> GetReceptionByID(id) == Ok(Reception(id, dateTime, pvzId, status))
      ensures ReceptionTable.NeverReopens(old(receptions), receptions)
      ensures users == old(users) && pvzs == old(pvzs) && products == old(products)
    {
      if id in receptions {
        return Failed(Duplicate("receptions", "id"));
      }
      receptions := receptions[id := Reception(id, dateTime, pvzId, status)];
      out := Done;
    }

    /**
     * GetReceptionsByPVZ: the PVZ's receptions, newest first.  The rows are read
     * without pvz_id, so that field of every returned record is empty.
     */
    method GetReceptionsByPVZ(pvzId: string) returns (result: seq<Reception>)
      requires Valid()
      ensures |result| == |ReceptionTable.OfPvz(receptions, pvzId)|
      ensures forall i :: 0 <= i < |result| ==>
                result[i].id in ReceptionTable.OfPvz(receptions, pvzId) &&
                result[i] == receptions[result[i].id].(pvzId := "")
      ensures forall i, j :: 0 <= i < j < |result| ==> result[i].id != result[j].id
      ensures forall k :: k in ReceptionTable.OfPvz(receptions, pvzId) ==>
                exists i :: 0 <= i < |result| && result[i].id == k
      ensures Sql.SortedDesc(result, ReceptionTime)
    {
      var rows, keys := Sql.OrderByDesc(receptions, ReceptionTable.OfPvz(receptions, pvzId), ReceptionTime);
      result := [];
      var i := 0;
      while i < |rows|
        invariant 0 <= i <= |rows|
        invariant |result| == i
        invariant forall n :: 0 <= n < i ==> result[n] == rows[n].(pvzId := "")
      {
        result := result + [Reception(rows[i].id, rows[i].dateTime, "", rows[i].status)];
        i := i + 1;
      }
      forall n | 0 <= n < |result|
        ensures result[n].id == keys[n]
      {
        assert rows[n] == receptions[keys[n]];
      }
      forall k | k in ReceptionTable.OfPvz(receptions, pvzId)
        ensures exists n :: 0 <= n < |result| && result[n].id == k
      {
        var n :| 0 <= n < |keys| && keys[n] == k;
        assert result[n].id == k;
      }
      assert forall n :: 0 <= n < |result| ==> ReceptionTime(result[n]) == ReceptionTime(rows[n]);
    }

    /**
     * CloseLastReception: picks an in_progress reception of the PVZ with the
     * latest dateTime and sets its status to 'close'; fails, changing
     * nothing, when the PVZ has no in_progress reception.
     */
    method CloseLastReception(pvzId: string) returns (out: Outcome, ghost closed: string)
      requires Valid()
      modifies this
      ensures Valid()
      ensures out.Failed? <==> ReceptionTable.OpenOf(old(receptions), pvzId) == {}
      ensures out.Failed? ==> out.error == NoActiveReception(pvzId) && receptions == old(receptions)
      ensures out.Done? ==>
                ReceptionTable.IsNewestOpen(old(receptions), pvzId, closed) &&
                receptions == ReceptionTable.CloseRow(old(receptions), closed)
      ensures out.Done? ==>
                ReceptionTable.OpenOf(receptions, pvzId) == ReceptionTable.OpenOf(old(receptions), pvzId) - {closed}
      ensures ReceptionTable.NeverReopens(old(receptions), receptions)
      ensures users == old(users) && pvzs == old(pvzs) && products == old(products)
    {
      var open := ReceptionTable.OpenOf(receptions, pvzId);
      if open == {} {
        return Failed(NoActiveReception(pvzId)), "";
      }
      Sql.NewestExists(receptions, ReceptionTime, open);
      var id :| id in open && Sql.IsNewest(receptions, ReceptionTime, open, id);
      ReceptionTable.CloseRemovesFromOpen(receptions, pvzId, id);
      ReceptionTable.CloseIsOneWay(receptions, id);
      receptions := receptions[id := receptions[id].(status := Closed)];
      out, closed := Done, id;
    }

    /** GetReceptionByID: the row with that id, or "reception not found". */
    function GetReceptionByID(id: string): (r: Result<Reception>)
      reads this
      requires Valid()
      ensures r.Ok? <==> id in receptions
      ensures r.Ok? ==> r.value == receptions[id] && r.value.id == id
      ensures r.Err? ==> r.error == ReceptionNotFound
    {
      if id in receptions then Ok(receptions[id]) else Err(ReceptionNotFound)
    }

    // ---------------------------------------------------------------- products

    /**
     * INSERT INTO products; only the PRIMARY KEY can reject it.  The reception
     * it names is not looked up: neither its existence nor its status matter.
     */
    method CreateProduct(id: string, dateTime: string, productType: string, receptionId: string)
      returns (out: Outcome)
      requires Valid()
      modifies this
      ensures Valid()
      ensures out.Failed? <==> id in old(products)
      ensures out.Failed? ==> out.error == Duplicate("products", "id") && products == old(products)
      ensures out.Done? ==> products == old(products)[id := Product(id, dateTime, productType, receptionId)]
      ensures out.Done? ==>
                ProductTable.OfReception(products, receptionId) ==
                ProductTable.OfReception(old(products), receptionId) + {id}
      ensures users == old(users) && pvzs == old(pvzs) && receptions == old(receptions)
    {
      if id in products {
        return Failed(Duplicate("products", "id"));
      }
      products := products[id := Product(id, dateTime, productType, receptionId)];
      out := Done;
    }

    /** GetProductsByReception: the reception's products, newest first. */
    method GetProductsByReception(receptionId: string) returns (result: seq<Product>)
      requires Valid()
      ensures |result| == |ProductTable.OfReception(products, receptionId)|
      ensures forall i :: 0 <= i < |result| ==>
                result[i].id in products && result[i] == products[result[i].id] &&
                result[i].receptionId == receptionId
      ensures forall i, j :: 0 <= i < j < |result| ==> result[i].id != result[j].id
      ensures forall k :: k in ProductTable.OfReception(products, receptionId) ==>
                exists i :: 0 <= i < |result| && result[i].id == k
      ensures Sql.SortedDesc(result, ProductTime)
    {
      var rows, keys := Sql.OrderByDesc(products, ProductTable.OfReception(products, receptionId), ProductTime);
      result := [];
      var i := 0;
      while i < |rows|
        invariant 0 <= i <= |rows|
        invariant |result| == i
        invariant forall n :: 0 <= n < i ==> result[n] == rows[n]
      {
        assert rows[i] == products[keys[i]];
        result := result + [Product(rows[i].id, rows[i].dateTime, rows[i].productType, receptionId)];
        i := i + 1;
      }
      forall n | 0 <= n < |result|
        ensures result[n].id == keys[n]
      {
        assert rows[n] == products[keys[n]];
      }
      forall k | k in ProductTable.OfReception(products, receptionId)
        ensures exists n :: 0 <= n < |result| && result[n].id == k
      {
        var n :| 0 <= n < |keys| && keys[n] == k;
        assert result[n].id == k;
      }
    }

    /**
     * DeleteLastProduct: picks the PVZ's newest in_progress reception, then
     * its newest product, and deletes that product.  Fails, changing nothing,
     * when the PVZ has no in_progress reception or that reception has no
     * product.
     */
    method DeleteLastProduct(pvzId: string)
      returns (out: Outcome, ghost receptionId: string, ghost productId: string)
      requires Valid()
      modifies this
      ensures Valid()
      ensures ReceptionTable.OpenOf(old(receptions), pvzId) == {} ==>
                out == Failed(NoActiveReception(pvzId)) && products == old(products)
      ensures ReceptionTable.OpenOf(old(receptions), pvzId) != {} ==>
                ReceptionTable.IsNewestOpen(old(receptions), pvzId, receptionId)
      ensures ReceptionTable.OpenOf(old(receptions), pvzId) != {} &&
              ProductTable.OfReception(old(products), receptionId) == {} ==>
                out == Failed(NoProducts) && products == old(products)
      ensures out.Done? <==>
                ReceptionTable.OpenOf(old(receptions), pvzId) != {} &&
                ProductTable.OfReception(old(products), receptionId) != {}
      ensures out.Done? ==>
                ProductTable.IsNewestIn(old(products), receptionId, productId) &&
                products == old(products) - {productId}
      ensures out.Done? ==>
                ProductTable.OfReception(products, receptionId) ==
                ProductTable.OfReception(old(products), receptionId) - {productId}
      ensures users == old(users) && pvzs == old(pvzs) && receptions == old(receptions)
    {
      var open := ReceptionTable.OpenOf(receptions, pvzId);
      if open == {} {
        return Failed(NoActiveReception(pvzId)), "", "";
      }
      Sql.NewestExists(receptions, ReceptionTime, open);
      var rid :| rid in open && Sql.IsNewest(receptions, ReceptionTime, open, rid);
      receptionId := rid;
      var held := ProductTable.OfReception(products, rid);
      if held == {} {
        return Failed(NoProducts), rid, "";
      }
      Sql.NewestExists(products, ProductTime, held);
      var pid :| pid in held && Sql.IsNewest(products, ProductTime, held, pid);
      ProductTable.DeleteRemovesOne(products, rid, pid);
      products := products - {pid};
      out, productId := Done, pid;
    }

    /**
     * n successive DeleteLastProduct calls for a PVZ whose only open reception
     * is `r', as a client issues them.  With N products in `r', the first
     * min(n, N) calls succeed and delete N distinct products newest first,
     * and every later call fails with "no products ...".
     */
    method DeleteLastProducts(pvzId: string, n: nat, ghost r: string)
      returns (outs: seq<Outcome>, ghost removed: seq<string>)
      requires Valid() && ReceptionTable.OpenOf(receptions, pvzId) == {r}
      modifies this
      ensures Valid()
      ensures |outs| == n && |removed| == Sql.Min(n, |ProductTable.OfReception(old(products), r)|)
      ensures forall i :: 0 <= i < n ==>
                outs[i] == if i < |ProductTable.OfReception(old(products), r)| then Done else Failed(NoProducts)
      ensures ProductTable.IsLifoRun(old(products), r, removed)
      ensures products == old(products) - (set k | k in removed)
      ensures n >= |ProductTable.OfReception(old(products), r)| ==> ProductTable.OfReception(products, r) == {}
      ensures users == old(users) && pvzs == old(pvzs) && receptions == old(receptions)
    {
      ghost var start := products;
      ghost var total := |ProductTable.OfReception(products, r)|;
      outs, removed := [], [];
      var i := 0;
      while i < n
        invariant 0 <= i <= n && |outs| == i
        invariant Valid() && ReceptionTable.OpenOf(receptions, pvzId) == {r}
        invariant |removed| == Sql.Min(i, total)
        invariant forall j :: 0 <= j < i ==> outs[j] == if j < total then Done else Failed(NoProducts)
        invariant ProductTable.IsLifoRun(start, r, removed)
        invariant products == start - (set k | k in removed)
        invariant |ProductTable.OfReception(products, r)| == total - |removed|
        invariant users == old(users) && pvzs == old(pvzs) && receptions == old(receptions)
      {
        ghost var before := products;
        var out, rid, pid := DeleteLastProduct(pvzId);
        assert rid == r;
        if out.Done? {
          ProductTable.LifoRunExtend(start, r, removed, pid);
          assert (set k | k in removed + [pid]) == (set k | k in removed) + {pid};
          removed := removed + [pid];
        }
        outs := outs + [out];
        i := i + 1;
      }
    }

    // ---------------------------------------------------------------- pvzs

    /** INSERT INTO pvzs; only the PRIMARY KEY can reject it. */
    method CreatePVZ(id: string, city: string, registrationDate: string) returns (out: Outcome)
      requires Valid()
      modifies this
      ensures Valid()
      ensures out.Failed? <==> id in old(pvzs)
      ensures out.Failed? ==> out.error == Duplicate("pvzs", "id") && pvzs == old(pvzs)
      ensures out.Done? ==> pvzs == old(pvzs)[id := Pvz(id, registrationDate, city)]
      ensures out.Done? ==> GetPVZByID(id) == Ok(Pvz(id, registrationDate, city))
      ensures users == old(users) && receptions == old(receptions) && products == old(products)
    {
      if id in pvzs {
        return Failed(Duplicate("pvzs", "id"));
      }
      pvzs := pvzs[id := Pvz(id, registrationDate, city)];
      out := Done;
    }

    /** GetPVZByID: the row with that id, or "PVZ not found". */
    function GetPVZByID(id: string): (r: Result<Pvz>)
      reads this
      requires Valid()
      ensures r.Ok? <==> id in pvzs
      ensures r.Ok? ==> r.value == pvzs[id] && r.value.id == id
      ensures r.Err? ==> r.error == PvzNotFound
    {
      if id in pvzs then Ok(pvzs[id]) else Err(PvzNotFound)
    }

    /**
     * GetPVZsFiltered: the PVZs registered within the given bounds, newest
     * first, cut to the page the limit and offset select.  `ordered' is the
     * whole filtered list in the order the database produced it.
     */
    method GetPVZsFiltered(startDate: string, endDate: string, page: GoInt.Int64, limit: GoInt.Int64)
      returns (result: seq<Pvz>, ghost ordered: seq<Pvz>)
      requires Valid()
      ensures |ordered| == |PvzTable.Matching(pvzs, startDate, endDate)|
      ensures forall i :: 0 <= i < |ordered| ==>
                ordered[i].id in PvzTable.Matching(pvzs, startDate, endDate) && ordered[i] == pvzs[ordered[i].id]
      ensures forall i, j :: 0 <= i < j < |ordered| ==> ordered[i].id != ordered[j].id
      ensures Sql.SortedDesc(ordered, RegistrationDate)
      ensures result == Sql.Window(ordered, limit, PvzTable.Offset(page, limit))
      ensures forall i :: 0 <= i < |result| ==>
                result[i].id in pvzs && result[i] == pvzs[result[i].id] &&
                PvzTable.InDateRange(result[i].registrationDate, startDate, endDate)
      ensures Sql.SortedDesc(result, RegistrationDate)
      ensures 0 <= limit ==> |result| <= limit
      ensures PvzTable.PlainPage(page, limit) ==> result == PvzTable.PageSlice(ordered, page, limit)
    {
      var query, args, conditions := PvzTable.BuildFilterQuery(startDate, endDate, page, limit);
      result, ordered := RunFilterQuery(startDate, endDate, args[|args| - 2].n, args[|args| - 1].n);
      if PvzTable.PlainPage(page, limit) {
        PvzTable.PageWindow(ordered, page, limit);
      }
    }

    /**
     * The execution half of GetPVZsFiltered: the database filters by the
     * bounds, orders newest first and applies LIMIT and OFFSET; the scan loop
     * copies each row into the result.  The SQL text BuildFilterQuery produces
     * is not interpreted: its WHERE clause is given meaning directly, as
     * PvzTable.InDateRange on the two bounds, and only the bound LIMIT and
     * OFFSET values are taken from the argument list.
     */
    method RunFilterQuery(startDate: string, endDate: string, limit: int, offset: int)
      returns (result: seq<Pvz>, ghost ordered: seq<Pvz>)
      requires Valid()
      ensures |ordered| == |PvzTable.Matching(pvzs, startDate, endDate)|
      ensures forall i :: 0 <= i < |ordered| ==>
                ordered[i].id in PvzTable.Matching(pvzs, startDate, endDate) && ordered[i] == pvzs[ordered[i].id]
      ensures forall i, j :: 0 <= i < j < |ordered| ==> ordered[i].id != ordered[j].id
      ensures Sql.SortedDesc(ordered, RegistrationDate)
      ensures result == Sql.Window(ordered, limit, offset)
      ensures forall i :: 0 <= i < |result| ==>
                result[i].id in pvzs && result[i] == pvzs[result[i].id] &&
                PvzTable.InDateRange(result[i].registrationDate, startDate, endDate)
      ensures Sql.SortedDesc(result, RegistrationDate)
      ensures 0 <= limit ==> |result| <= limit
    {
      var keep := PvzTable.Matching(pvzs, startDate, endDate);
      var rows, keys := Sql.OrderByDesc(pvzs, keep, RegistrationDate);
      PvzTable.OrderedRowsById(pvzs, keep, rows, keys);
      result := ScanPvzs(Sql.Window(rows, limit, offset));
      ordered := rows;
      PvzTable.WindowOfFiltered(pvzs, startDate, endDate, rows, limit, offset);
      Sql.WindowKeepsOrder(rows, limit, offset, RegistrationDate);
    }

    /** The rows.Next() loop of GetPVZsFiltered: each row scanned into a fresh PVZ, in order. */
    static method ScanPvzs(rows: seq<Pvz>) returns (result: seq<Pvz>)
      ensures result == rows
    {
      result := [];
      var i := 0;
      while i < |rows|
        invariant 0 <= i <= |rows|
        invariant result == rows[..i]
      {
        result := result + [Pvz(rows[i].id, rows[i].registrationDate, rows[i].city)];
        i := i + 1;
      }
      assert rows[..i] == rows;
    }

    // ---------------------------------------------------------------- users

    /**
     * CreateUser: hashes the password (an outside function that may fail) and
     * inserts the row with the hash in place of the password; the PRIMARY KEY
     * on id and the UNIQUE constraint on email can reject the insert.
     */
    method CreateUser(id: string, email: string, password: string, role: string, hash: string -> Option<string>)
      returns (out: Outcome)
      requires Valid()
      modifies this
      ensures Valid()
      ensures out.Done? <==>
                hash(password).Some? && id !in old(users) && !UserTable.EmailTaken(old(users), email)
      ensures hash(password).None? ==> out == Failed(HashFailed)
      ensures hash(password).Some? && out.Failed? ==> out.error.Duplicate?
      ensures out.Failed? && out.error.Duplicate? ==>
                (out.error == Duplicate("users", "id") && id in old(users)) ||
                (out.error == Duplicate("users", "email") && UserTable.EmailTaken(old(users), email))
      ensures out.Failed? ==> users == old(users)
      ensures out.Done? ==> users == old(users)[id := User(id, email, role, hash(password).value)]
      ensures out.Done? ==> GetUserByEmail(email) == (User(id, email, role, hash(password).value), None)
      ensures pvzs == old(pvzs) && receptions == old(receptions) && products == old(products)
    {
      var hashed := hash(password);
      if hashed.None? {
        return Failed(HashFailed);
      }
      if id in users {
        return Failed(Duplicate("users", "id"));
      }
      if UserTable.EmailTaken(users, email) {
        return Failed(Duplicate("users", "email"));
      }
      var u := User(id, email, role, hashed.value);
      UserTable.InsertThenByEmail(users, u);
      users := UserTable.InsertRow(users, u);
      out := Done;
    }

    /** GetUserByEmail: the row with that email, or Go's zero User and "user not found". */
    function GetUserByEmail(email: string): (r: (User, Option<Error>))
      reads this
      requires Valid()
      ensures r.1.None? <==> UserTable.EmailTaken(users, email)
      ensures r.1.None? ==> r.0.email == email && r.0.id in users && users[r.0.id] == r.0
      ensures r.1.Some? ==> r == (ZeroUser, Some(UserNotFound))
    {
      match UserTable.ByEmail(users, email)
      case Some(u) => (u, None)
      case None => (ZeroUser, Some(UserNotFound))
    }

    /**
     * CheckCredentials: "user not found" for an unknown email; otherwise
     * success exactly when the stored hash accepts the password, as decided
     * by the outside comparison `accepts(hash, password)'.
     */
    function CheckCredentials(email: string, password: string, accepts: (string, string) -> bool): (r: Option<Error>)
      reads this
      requires Valid()
      ensures !UserTable.EmailTaken(users, email) ==> r == Some(UserNotFound)
      ensures UserTable.EmailTaken(users, email) ==>
                (r.None? <==> accepts(GetUserByEmail(email).0.password, password)) &&
                (r.Some? ==> r == Some(WrongPassword))
    {
      match UserTable.ByEmail(users, email)
      case None => Some(UserNotFound)
      case Some(u) => if accepts(u.password, password) then None else Some(WrongPassword)
    }
  }
}
