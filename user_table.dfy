/**
 * The `users' table (internal/db/user.go): rows keyed by id, with the UNIQUE
 * constraint on `email'.
 */
module UserTable {
  import opened Models

  type Table = map<string, User>

  /** Every row is stored under its own id, the PRIMARY KEY. */
  ghost predicate KeyedById(t: Table)
  {
    forall k :: k in t ==> t[k].id == k
  }

  /** `email TEXT NOT NULL UNIQUE' */
  ghost predicate EmailsUnique(t: Table)
  {
    forall a, b :: a in t && b in t && t[a].email == t[b].email ==> a == b
  }

  predicate EmailTaken(t: Table, email: string)
  {
    exists k :: k in t && t[k].email == email
  }

  /** `SELECT ... FROM users WHERE email = ?': the one row with that email, if any. */
  function ByEmail(t: Table, email: string): (r: Option<User>)
    requires EmailsUnique(t)
    ensures r.Some? <==> EmailTaken(t, email)
    ensures r.Some? ==> r.value.email == email && exists k :: k in t && t[k] == r.value
  {
    if EmailTaken(t, email) then
      var k :| k in t && t[k].email == email;
      Some(t[k])
    else
      None
  }

  /** The insert CreateUser performs once hashing succeeded and no constraint fails. */
  function InsertRow(t: Table, u: User): Table
    requires u.id !in t && !EmailTaken(t, u.email)
  {
    t[u.id := u]
  }

  /** The insert keeps both constraints. */
  lemma InsertKeepsConstraints(t: Table, u: User)
    requires KeyedById(t) && EmailsUnique(t)
    requires u.id !in t && !EmailTaken(t, u.email)
    ensures KeyedById(InsertRow(t, u)) && EmailsUnique(InsertRow(t, u))
  {
    var t' := InsertRow(t, u);
    forall a, b | a in t' && b in t' && t'[a].email == t'[b].email
      ensures a == b
    {
      if a != u.id && b == u.id {
        assert false;
      } else if a == u.id && b != u.id {
        assert false;
      }
    }
  }

  /** After the insert, the lookup by email finds exactly the inserted row. */
  lemma InsertThenByEmail(t: Table, u: User)
    requires KeyedById(t) && EmailsUnique(t)
    requires u.id !in t && !EmailTaken(t, u.email)
    ensures EmailsUnique(InsertRow(t, u))
    ensures ByEmail(InsertRow(t, u), u.email) == Some(u)
  {
    InsertKeepsConstraints(t, u);
    var t' := InsertRow(t, u);
    var r := ByEmail(t', u.email);
    assert t'[u.id].email == u.email;
    var k :| k in t' && t'[k] == r.value;
    if k != u.id {
      assert false;
    }
  }

  /** The insert leaves the lookup of every other email as it was. */
  lemma InsertKeepsOtherEmails(t: Table, u: User, email: string)
    requires KeyedById(t) && EmailsUnique(t)
    requires u.id !in t && !EmailTaken(t, u.email) && email != u.email
    ensures EmailsUnique(InsertRow(t, u))
    ensures ByEmail(InsertRow(t, u), email) == ByEmail(t, email)
  {
    InsertKeepsConstraints(t, u);
    var t' := InsertRow(t, u);
    assert EmailTaken(t', email) <==> EmailTaken(t, email) by {
      if EmailTaken(t', email) {
        var k :| k in t' && t'[k].email == email;
        assert k in t && t[k].email == email;
      }
      if EmailTaken(t, email) {
        var k :| k in t && t[k].email == email;
        assert k in t' && t'[k].email == email;
      }
    }
    if EmailTaken(t, email) {
      var a := ByEmail(t', email).value;
      var b := ByEmail(t, email).value;
      var ka :| ka in t' && t'[ka] == a;
      var kb :| kb in t && t[kb] == b;
      assert kb in t' && t'[kb].email == email;
    }
  }
}
