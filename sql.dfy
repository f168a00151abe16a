/**
 * What the SQL clauses the persistence layer relies on mean, stated over a
 * table held as a map from primary key to row:
 *   - text comparison of the DATETIME columns (they hold RFC3339 text, which
 *     SQLite compares character by character);
 *   - `ORDER BY <time> DESC' and `ORDER BY <time> DESC LIMIT 1', where rows
 *     with equal times come out in no particular order;
 *   - `LIMIT ? OFFSET ?' with SQLite's reading of negative values.
 */
module Sql {

  /** a <= b in character-by-character (BINARY collation) order. */
  predicate TextLessEq(a: string, b: string)
  {
    |a| == 0 || (|b| > 0 && (a[0] < b[0] || (a[0] == b[0] && TextLessEq(a[1..], b[1..]))))
  }

  lemma {:induction false} TextLessEqReflexive(a: string)
    ensures TextLessEq(a, a)
  {
    if |a| > 0 {
      TextLessEqReflexive(a[1..]);
    }
  }

  lemma {:induction false} TextLessEqTotal(a: string, b: string)
    ensures TextLessEq(a, b) || TextLessEq(b, a)
  {
    if |a| > 0 && |b| > 0 && a[0] == b[0] {
      TextLessEqTotal(a[1..], b[1..]);
    }
  }

  lemma {:induction false} TextLessEqTransitive(a: string, b: string, c: string)
    requires TextLessEq(a, b) && TextLessEq(b, c)
    ensures TextLessEq(a, c)
  {
    if |a| > 0 && a[0] == b[0] && b[0] == c[0] {
      TextLessEqTransitive(a[1..], b[1..], c[1..]);
    }
  }

  lemma {:induction false} TextLessEqAntisymmetric(a: string, b: string)
    requires TextLessEq(a, b) && TextLessEq(b, a)
    ensures a == b
  {
    if |a| > 0 {
      TextLessEqAntisymmetric(a[1..], b[1..]);
      assert a == [a[0]] + a[1..] && b == [b[0]] + b[1..];
    }
  }

  /**
   * Key `k` is a row that `ORDER BY time DESC LIMIT 1' may return among the
   * rows with keys in `keys`: no row in `keys` is later.
   */
  predicate IsNewest<T>(t: map<string, T>, time: T -> string, keys: set<string>, k: string)
  {
    k in keys && k in t && forall j :: j in keys && j in t ==> TextLessEq(time(t[j]), time(t[k]))
  }

  /** A non-empty selection always has a newest row, so `LIMIT 1' finds one. */
  lemma {:induction false} NewestExists<T>(t: map<string, T>, time: T -> string, keys: set<string>)
    requires keys != {} && keys <= t.Keys
    ensures exists k :: IsNewest(t, time, keys, k)
    decreases keys
  {
    var x :| x in keys;
    if keys == {x} {
      TextLessEqReflexive(time(t[x]));
      assert IsNewest(t, time, keys, x);
    } else {
      NewestExists(t, time, keys - {x});
      var m :| IsNewest(t, time, keys - {x}, m);
      TextLessEqTotal(time(t[x]), time(t[m]));
      if TextLessEq(time(t[x]), time(t[m])) {
        assert IsNewest(t, time, keys, m);
      } else {
        forall j | j in keys && j in t
          ensures TextLessEq(time(t[j]), time(t[x]))
        {
          if j == x {
            TextLessEqReflexive(time(t[x]));
          } else {
            TextLessEqTransitive(time(t[j]), time(t[m]), time(t[x]));
          }
        }
        assert IsNewest(t, time, keys, x);
      }
    }
  }

  /** Rows in non-increasing time order. */
  predicate SortedDesc<T>(rows: seq<T>, time: T -> string)
  {
    forall i, j :: 0 <= i < j < |rows| ==> TextLessEq(time(rows[j]), time(rows[i]))
  }

  /**
   * `SELECT ... WHERE <keep> ORDER BY time DESC': every selected row exactly
   * once, newest first.  `keys` names the row each result position came from.
   */
  method OrderByDesc<T>(t: map<string, T>, keep: set<string>, time: T -> string)
    returns (rows: seq<T>, ghost keys: seq<string>)
    requires keep <= t.Keys
    ensures |rows| == |keys| == |keep|
    ensures forall i :: 0 <= i < |keys| ==> keys[i] in keep && rows[i] == t[keys[i]]
    ensures forall i, j :: 0 <= i < j < |keys| ==> keys[i] != keys[j]
    ensures forall k :: k in keep ==> k in keys
    ensures SortedDesc(rows, time)
  {
    var pending := keep;
    rows, keys := [], [];
    while pending != {}
      invariant pending <= keep
      invariant |rows| == |keys| && |keys| + |pending| == |keep|
      invariant forall i :: 0 <= i < |keys| ==> keys[i] in keep && keys[i] !in pending && rows[i] == t[keys[i]]
      invariant forall i, j :: 0 <= i < j < |keys| ==> keys[i] != keys[j]
      invariant forall k :: k in keep && k !in pending ==> k in keys
      invariant SortedDesc(rows, time)
      invariant forall i, k :: 0 <= i < |rows| && k in pending ==> TextLessEq(time(t[k]), time(rows[i]))
      decreases pending
    {
      NewestExists(t, time, pending);
      var k :| k in pending && IsNewest(t, time, pending, k);
      rows, keys := rows + [t[k]], keys + [k];
      pending := pending - {k};
    }
  }

  function Min(a: int, b: int): int { if a <= b then a else b }

  /**
   * `LIMIT limit OFFSET offset' applied to already ordered rows, as SQLite
   * reads the two values: a negative offset skips nothing and a negative
   * limit sets no upper bound.
   */
  function Window<T>(rows: seq<T>, limit: int, offset: int): (w: seq<T>)
    ensures var start := if offset < 0 then 0 else Min(offset, |rows|);
            |w| == (if limit < 0 then |rows| - start else Min(limit, |rows| - start)) &&
            forall i :: 0 <= i < |w| ==> w[i] == rows[start + i]
  {
    var start := if offset < 0 then 0 else Min(offset, |rows|);
    var rest := rows[start..];
    if limit < 0 || limit >= |rest| then rest else rest[..limit]
  }

  /** A window of ordered rows is ordered. */
  lemma WindowKeepsOrder<T>(rows: seq<T>, limit: int, offset: int, time: T -> string)
    requires SortedDesc(rows, time)
    ensures SortedDesc(Window(rows, limit, offset), time)
  {
    var w := Window(rows, limit, offset);
    var start := if offset < 0 then 0 else Min(offset, |rows|);
    forall i, j | 0 <= i < j < |w| ensures TextLessEq(time(w[j]), time(w[i])) {
      assert w[i] == rows[start + i] && w[j] == rows[start + j];
    }
  }

  /** Pages 1..n of size `limit`, concatenated. */
  function Pages<T>(rows: seq<T>, limit: nat, n: nat): seq<T>
  {
    if n == 0 then [] else Pages(rows, limit, n - 1) + Window(rows, limit, (n - 1) * limit)
  }

  /** The window after the first `offset' rows extends them by up to `limit' rows. */
  lemma WindowExtendsPrefix<T>(rows: seq<T>, limit: nat, offset: nat)
    ensures rows[..Min(offset, |rows|)] + Window(rows, limit, offset) == rows[..Min(offset + limit, |rows|)]
  {
    var a, b := Min(offset, |rows|), Min(offset + limit, |rows|);
    assert Window(rows, limit, offset) == rows[a..b];
    assert rows[..b] == rows[..a] + rows[a..b];
  }

  /**
   * Paging with offset (page-1)*limit loses and repeats nothing: the first n
   * pages together are the first n*limit rows.
   */
  lemma {:induction false} PagesArePrefix<T>(rows: seq<T>, limit: nat, n: nat)
    requires limit >= 1
    ensures Pages(rows, limit, n) == rows[..Min(n * limit, |rows|)]
  {
    if n > 0 {
      PagesArePrefix(rows, limit, n - 1);
      var offset := (n - 1) * limit;
      assert offset >= 0 && n * limit == offset + limit;
      WindowExtendsPrefix(rows, limit, offset);
    }
  }
}
