/**
 * The `pvzs' table (internal/db/pvz.go): the date filter of GetPVZsFiltered,
 * its query builder (conditions, arguments, joinConditions, joinStrings) and
 * the offset it computes.
 */
module PvzTable {
  import opened Models
  import Sql
  import GoInt

  type Table = map<string, Pvz>

  /** Every row is stored under its own id, the PRIMARY KEY. */
  ghost predicate KeyedById(t: Table)
  {
    forall k :: k in t ==> t[k].id == k
  }

  /**
   * `registration_date >= startDate' when startDate is non-empty and
   * `registration_date <= endDate' when endDate is non-empty.
   */
  predicate InDateRange(date: string, startDate: string, endDate: string)
  {
    (startDate == "" || Sql.TextLessEq(startDate, date)) &&
    (endDate == "" || Sql.TextLessEq(date, endDate))
  }

  function Matching(t: Table, startDate: string, endDate: string): set<string>
  {
    set k | k in t && InDateRange(t[k].registrationDate, startDate, endDate)
  }

  /** An empty bound filters nothing: with both bounds empty every row matches. */
  lemma EmptyBoundsMatchAll(t: Table)
    ensures Matching(t, "", "") == t.Keys
  {
  }

  /** `(page - 1) * limit' in Go int arithmetic, wrap-around included. */
  function Offset(page: GoInt.Int64, limit: GoInt.Int64): GoInt.Int64
  {
    GoInt.Wrap(GoInt.Wrap(page - 1) * limit)
  }

  /** For page >= 1 and limit >= 1 with no overflow, the offset is (page-1)*limit rows. */
  lemma OffsetOfPage(page: GoInt.Int64, limit: GoInt.Int64)
    requires 1 <= page && 1 <= limit && (page - 1) * limit <= GoInt.Max
    ensures Offset(page, limit) == (page - 1) * limit
  {
  }

  /** Rows read back by key carry that key as their id, so distinct keys give distinct ids. */
  lemma OrderedRowsById(t: Table, keep: set<string>, rows: seq<Pvz>, keys: seq<string>)
    requires KeyedById(t)
    requires |rows| == |keys|
    requires forall i :: 0 <= i < |keys| ==> keys[i] in keep && keys[i] in t && rows[i] == t[keys[i]]
    requires forall i, j :: 0 <= i < j < |keys| ==> keys[i] != keys[j]
    ensures forall i :: 0 <= i < |rows| ==> rows[i].id in keep && rows[i] == t[rows[i].id]
    ensures forall i, j :: 0 <= i < j < |rows| ==> rows[i].id != rows[j].id
  {
    assert forall i :: 0 <= i < |rows| ==> rows[i].id == keys[i];
  }

  /** Every row of a window of filtered rows is a stored row within the bounds. */
  lemma WindowOfFiltered(t: Table, startDate: string, endDate: string, rows: seq<Pvz>, limit: int, offset: int)
    requires forall i :: 0 <= i < |rows| ==>
               rows[i].id in Matching(t, startDate, endDate) && rows[i] == t[rows[i].id]
    ensures var w := Sql.Window(rows, limit, offset);
            forall i :: 0 <= i < |w| ==>
              w[i].id in t && w[i] == t[w[i].id] && InDateRange(w[i].registrationDate, startDate, endDate)
  {
    var w := Sql.Window(rows, limit, offset);
    var start := if offset < 0 then 0 else Sql.Min(offset, |rows|);
    forall i | 0 <= i < |w|
      ensures w[i].id in t && w[i] == t[w[i].id] && InDateRange(w[i].registrationDate, startDate, endDate)
    {
      assert w[i] == rows[start + i];
    }
  }

  /** page and limit are at least 1 and (page-1)*limit does not overflow. */
  predicate PlainPage(page: int, limit: int)
  {
    1 <= page && 1 <= limit && (page - 1) * limit <= GoInt.Max
  }

  /** Rows (page-1)*limit up to page*limit, cut at the end of `rows'. */
  function PageSlice<T>(rows: seq<T>, page: int, limit: int): (p: seq<T>)
    requires 1 <= page && 1 <= limit
    ensures |p| <= limit
    ensures (page - 1) * limit >= |rows| ==> p == []
  {
    var start := Sql.Min((page - 1) * limit, |rows|);
    rows[start..Sql.Min(start + limit, |rows|)]
  }

  /** With a plain page, LIMIT limit OFFSET offset selects exactly the page's slice. */
  lemma PageWindow<T>(rows: seq<T>, page: GoInt.Int64, limit: GoInt.Int64)
    requires PlainPage(page, limit)
    ensures Sql.Window(rows, limit, Offset(page, limit)) == PageSlice(rows, page, limit)
  {
    OffsetOfPage(page, limit);
  }

  /**
   * The multiplication wraps for very large pages: page 2^62+1 with limit 4
   * gives offset 0, the first page.
   */
  lemma HugePageWrapsToFirstPage()
    ensures Offset(0x4000_0000_0000_0001, 4) == 0
  {
    assert GoInt.Wrap(0x4000_0000_0000_0001 - 1) == 0x4000_0000_0000_0000;
    assert 0x4000_0000_0000_0000 * 4 == GoInt.Modulus;
  }

  /** joinStrings: items[0], then sep + item for each later item; "" for no items. */
  function Joined(items: seq<string>, sep: string): string
  {
    if |items| == 0 then ""
    else if |items| == 1 then items[0]
    else Joined(items[..|items| - 1], sep) + sep + items[|items| - 1]
  }

  /** joinStrings accumulates the result left to right. */
  method JoinStrings(items: seq<string>, sep: string) returns (result: string)
    ensures result == Joined(items, sep)
  {
    if |items| == 0 {
      return "";
    }
    result := items[0];
    var i := 1;
    while i < |items|
      invariant 1 <= i <= |items|
      invariant result == Joined(items[..i], sep)
    {
      assert items[..i + 1][..i] == items[..i];
      result := result + sep + items[i];
      i := i + 1;
    }
    assert items[..i] == items;
  }

  /** How often `c' occurs in all of `items'. */
  function Occurrences(items: seq<string>, c: char): nat
  {
    if |items| == 0 then 0 else Occurrences(items[..|items| - 1], c) + multiset(items[|items| - 1])[c]
  }

  /** Joining adds only the separators: a separator without `c' adds no `c'. */
  lemma {:induction false} JoinedOccurrences(items: seq<string>, sep: string, c: char)
    requires multiset(sep)[c] == 0
    ensures multiset(Joined(items, sep))[c] == Occurrences(items, c)
    decreases |items|
  {
    if |items| == 1 {
      assert items[..0] == [];
    } else if |items| > 1 {
      JoinedOccurrences(items[..|items| - 1], sep, c);
    }
  }

  /** The length of a join: every item and one separator between each two. */
  lemma {:induction false} JoinedLength(items: seq<string>, sep: string)
    requires |items| >= 1
    ensures |Joined(items, sep)| == TotalLength(items) + (|items| - 1) * |sep|
    decreases |items|
  {
    if |items| > 1 {
      var init, last := items[..|items| - 1], items[|items| - 1];
      JoinedLength(init, sep);
      var m := |init| - 1;
      assert (m + 1) * |sep| == m * |sep| + |sep|;
      assert Joined(items, sep) == Joined(init, sep) + sep + last;
      assert TotalLength(items) == TotalLength(init) + |last|;
    }
  }

  /** Total length of the items. */
  function TotalLength(items: seq<string>): nat
  {
    if |items| == 0 then 0 else TotalLength(items[..|items| - 1]) + |items[|items| - 1]|
  }

  /** joinConditions: the conditions joined with " AND ", in parentheses. */
  function JoinConditions(conditions: seq<string>): (r: string)
    ensures |r| >= 2 && r[0] == '(' && r[|r| - 1] == ')'
    ensures r[1..|r| - 1] == Joined(conditions, " AND ")
  {
    "(" + Joined(conditions, " AND ") + ")"
  }

  /**
   * The WHERE clause carries exactly the placeholders of its conditions:
   * neither the parentheses nor " AND " add one.
   */
  lemma JoinConditionsPlaceholders(conditions: seq<string>)
    ensures multiset(JoinConditions(conditions))['?'] == Occurrences(conditions, '?')
  {
    JoinedOccurrences(conditions, " AND ", '?');
    assert JoinConditions(conditions) == "(" + Joined(conditions, " AND ") + ")";
  }

  /** A bound query argument. */
  datatype Arg = Text(text: string) | Number(n: int)

  const SelectPvzs := "\n    SELECT id, registration_date, city\n    FROM pvzs"
  const OrderAndPage := " ORDER BY registration_date DESC LIMIT ? OFFSET ?"
  const AfterStart := "registration_date >= ?"
  const BeforeEnd := "registration_date <= ?"

  /** Number of bounds that take part in the filter. */
  function BoundCount(startDate: string, endDate: string): nat
  {
    (if startDate != "" then 1 else 0) + (if endDate != "" then 1 else 0)
  }

  /** The text of the query: the select, a WHERE clause when there are conditions, then ordering and paging. */
  predicate IsFilterQuery(query: string, conditions: seq<string>)
  {
    query == SelectPvzs + (if |conditions| > 0 then " WHERE " + JoinConditions(conditions) else "") + OrderAndPage
  }

  /** The query text has a WHERE clause exactly when there are conditions. */
  lemma FilterQueryWhere(query: string, conditions: seq<string>)
    requires IsFilterQuery(query, conditions)
    ensures (query == SelectPvzs + OrderAndPage) <==> |conditions| == 0
  {
    if |conditions| > 0 {
      assert |query| > |SelectPvzs + OrderAndPage|;
    }
  }

  /**
   * The query text and arguments GetPVZsFiltered sends.  Conditions and
   * arguments grow together: argument i is the value of condition i, the
   * startDate bound before the endDate bound, and limit and offset come last;
   * the query carries a WHERE clause exactly when some bound is non-empty.
   */
  method BuildFilterQuery(startDate: string, endDate: string, page: GoInt.Int64, limit: GoInt.Int64)
    returns (query: string, args: seq<Arg>, ghost conditions: seq<string>)
    ensures |conditions| == BoundCount(startDate, endDate) && |args| == |conditions| + 2
    ensures forall i :: 0 <= i < |conditions| ==>
              (conditions[i] == AfterStart && args[i] == Text(startDate) && startDate != "") ||
              (conditions[i] == BeforeEnd && args[i] == Text(endDate) && endDate != "")
    ensures startDate != "" ==> conditions[0] == AfterStart
    ensures endDate != "" ==> conditions[|conditions| - 1] == BeforeEnd
    ensures args[|args| - 2] == Number(limit) && args[|args| - 1] == Number(Offset(page, limit))
    ensures IsFilterQuery(query, conditions)
    ensures (query == SelectPvzs + OrderAndPage) <==> startDate == "" && endDate == ""
  {
    query := SelectPvzs;
    var conds: seq<string> := [];
    args := [];
    if startDate != "" {
      conds := conds + [AfterStart];
      args := args + [Text(startDate)];
    }
    if endDate != "" {
      conds := conds + [BeforeEnd];
      args := args + [Text(endDate)];
    }
    if |conds| > 0 {
      query := query + " WHERE " + JoinConditions(conds);
    }
    conditions := conds;
    var offset := Offset(page, limit);
    query := query + OrderAndPage;
    args := args + [Number(limit), Number(offset)];
    FilterQueryWhere(query, conditions);
  }
}
