/**
 * The SQL text and the bound-parameter list that `insert`, `select`,
 * `select_all`, `update` and `delete` hand to the connection.
 */
module QueryBuilder {
  import opened Results
  import opened Strings
  import opened Identifiers

  /** A bound scalar; the builders pass values through without looking at them. */
  datatype Value =
    | Null
    | Integer(i: int)
    | Float(bits: bv64)
    | Text(chars: string)
    | Blob(bytes: seq<bv8>)

  /** An associative array: column or placeholder name to value, in insertion order. */
  type Record = seq<(string, Value)>

  function Keys(r: Record): seq<string>
  {
    seq(|r|, i requires 0 <= i < |r| => r[i].0)
  }

  /** PHP array keys are unique. */
  predicate DistinctKeys(r: Record)
  {
    forall i, j :: 0 <= i < j < |r| ==> r[i].0 != r[j].0
  }

  /** `$r[$k]`, or None when the key is missing. */
  function Lookup(r: Record, k: string): Option<Value>
  {
    if r == [] then None
    else if r[0].0 == k then Some(r[0].1)
    else Lookup(r[1..], k)
  }

  /** `$r[$k] = $v`: overwrites the entry for `k` in place, or appends one. */
  function Assign(r: Record, k: string, v: Value): (a: Record)
    ensures Lookup(a, k) == Some(v)
    ensures k !in Keys(r) ==> a == r + [(k, v)]
    ensures k in Keys(r) ==> |a| == |r|
  {
    if r == [] then [(k, v)]
    else
      assert Keys(r) == [r[0].0] + Keys(r[1..]);
      if r[0].0 == k then [(k, v)] + r[1..]
      else [r[0]] + Assign(r[1..], k, v)
  }

  lemma KeysCons(head: (string, Value), tail: Record)
    ensures Keys([head] + tail) == [head.0] + Keys(tail)
  {
  }

  /** After `$r[$k] = $v`, `$r[$k]` is `$v` and every other key keeps its value. */
  lemma {:induction false} AssignLookup(r: Record, k: string, v: Value, k': string)
    ensures Lookup(Assign(r, k, v), k') == if k' == k then Some(v) else Lookup(r, k')
  {
    if r != [] && r[0].0 != k {
      AssignLookup(r[1..], k, v, k');
    }
  }

  lemma AssignLookups(r: Record, k: string, v: Value)
    ensures forall k' :: Lookup(Assign(r, k, v), k') == if k' == k then Some(v) else Lookup(r, k')
  {
    forall k' ensures Lookup(Assign(r, k, v), k') == if k' == k then Some(v) else Lookup(r, k') {
      AssignLookup(r, k, v, k');
    }
  }

  /** `$r[$k] = $v` keeps the existing keys in their order and appends `k` only when it was missing. */
  lemma {:induction false} AssignKeys(r: Record, k: string, v: Value)
    ensures Keys(Assign(r, k, v)) == if k in Keys(r) then Keys(r) else Keys(r) + [k]
  {
    if r != [] {
      assert r == [r[0]] + r[1..];
      KeysCons(r[0], r[1..]);
      if r[0].0 == k {
        KeysCons((k, v), r[1..]);
      } else {
        AssignKeys(r[1..], k, v);
        KeysCons(r[0], Assign(r[1..], k, v));
        assert k in Keys(r) <==> k in Keys(r[1..]);
      }
    }
  }

  /** `$r[$k] = $v` keeps the keys unique. */
  lemma AssignDistinct(r: Record, k: string, v: Value)
    ensures DistinctKeys(r) ==> DistinctKeys(Assign(r, k, v))
  {
    var r' := Assign(r, k, v);
    AssignKeys(r, k, v);
    assert Keys(r') == if k in Keys(r) then Keys(r) else Keys(r) + [k];
    if DistinctKeys(r) {
      forall i, j | 0 <= i < j < |r'|
        ensures r'[i].0 != r'[j].0
      {
        assert r'[i].0 == Keys(r')[i] && r'[j].0 == Keys(r')[j];
        assert Keys(r')[i] == Keys(r)[i] == r[i].0;
        if j < |r| {
          assert Keys(r')[j] == Keys(r)[j] == r[j].0;
        } else {
          assert k !in Keys(r) && Keys(r')[j] == k;
        }
      }
    }
  }

  /** The quoted form of every key, in order (`array_map('quoteIdentifier', ...)`). */
  function QuoteAll(keys: seq<string>): seq<string>
  {
    seq(|keys|, i requires 0 <= i < |keys| => QuoteIdentifier(keys[i]))
  }

  /** The named placeholder of every key, in order. */
  function Placeholders(keys: seq<string>): seq<string>
  {
    seq(|keys|, i requires 0 <= i < |keys| => ":" + keys[i])
  }

  /** `':' . implode(', :', keys)` is the list of placeholders joined by ", ". */
  lemma {:induction false} PlaceholderListJoin(keys: seq<string>)
    requires keys != []
    ensures ":" + Join(", :", keys) == Join(", ", Placeholders(keys))
  {
    if |keys| > 1 {
      PlaceholderListJoin(keys[1..]);
      assert Placeholders(keys)[1..] == Placeholders(keys[1..]);
      assert ":" + Join(", :", keys) == (":" + keys[0]) + ", " + (":" + Join(", :", keys[1..]));
    }
  }

  /** A statement ready for `prepare` and `execute`. */
  datatype Prepared = Prepared(sql: string, params: Record)

  /**
   * `insert`: refuses an empty payload; otherwise the column list and the
   * placeholder list follow the keys of `data` one for one, and `data`
   * itself is bound.
   */
  function BuildInsert(table: string, data: Record): (r: Result<Prepared>)
    ensures r.Err? <==> data == []
    ensures r.Err? ==> r.error == EmptyPayload
    ensures r.Ok? ==> r.value.params == data
    ensures r.Ok? ==>
              r.value.sql == "INSERT INTO " + QuoteIdentifier(table)
                             + " (" + Join(", ", QuoteAll(Keys(data)))
                             + ") VALUES (" + Join(", ", Placeholders(Keys(data))) + ")"
  {
    if data == [] then Err(EmptyPayload)
    else
      var columns := Join(", ", QuoteAll(Keys(data)));
      var placeholders := ":" + Join(", :", Keys(data));
      PlaceholderListJoin(Keys(data));
      var safeTable := QuoteIdentifier(table);
      Ok(Prepared("INSERT INTO " + safeTable + " (" + columns + ") VALUES (" + placeholders + ")", data))
  }

  /** One `<quoted key> = :<key>` comparison or assignment. */
  function EqualityClause(key: string): string
  {
    QuoteIdentifier(key) + " = :" + key
  }

  function ClauseList(keys: seq<string>): seq<string>
  {
    seq(|keys|, i requires 0 <= i < |keys| => EqualityClause(keys[i]))
  }

  /** The `foreach` that collects one equality clause per key, in key order. */
  method CollectClauses(entries: Record) returns (clauses: seq<string>)
    ensures clauses == ClauseList(Keys(entries))
  {
    clauses := [];
    for i := 0 to |entries|
      invariant |clauses| == i
      invariant forall j :: 0 <= j < i ==> clauses[j] == EqualityClause(entries[j].0)
    {
      var key := entries[i].0;
      clauses := clauses + [QuoteIdentifier(key) + " = :" + key];
    }
  }

  /** The shapes PHP lets through `select`'s `$condition`. */
  datatype Condition =
    | Absent                  // null
    | IntArg(n: int)          // an int
    | StringArg(s: string)    // a string
    | ArrayArg(entries: Record)
    | OtherArg                // float, bool or object

  /** `ctype_digit`: a non-empty string of decimal digits. */
  predicate AllDigits(s: string)
  {
    |s| > 0 && forall i :: 0 <= i < |s| ==> '0' <= s[i] <= '9'
  }

  /** An int, or a string of digits: a primary-key lookup. */
  predicate IdLike(c: Condition)
    ensures IdLike(c) ==> c.IntArg? || c.StringArg?
    ensures c.IntArg? ==> IdLike(c)
    ensures c.StringArg? && AllDigits(c.s) ==> IdLike(c)
    ensures c.StringArg? && c.s == [] ==> !IdLike(c)
    ensures c.StringArg? && (exists i :: 0 <= i < |c.s| && !('0' <= c.s[i] <= '9')) ==> !IdLike(c)
  {
    c.IntArg? || (c.StringArg? && AllDigits(c.s))
  }

  /** What `select` ends up doing: `fetchAll`, `fetchOne`, or nothing at all. */
  datatype SelectPlan = ManyRows(stmt: Prepared) | OneRow(stmt: Prepared) | NoQuery

  function SelectAllSql(table: string): string
  {
    "SELECT * FROM " + QuoteIdentifier(table)
  }

  /**
   * `select`'s dispatch: null reads the whole table, an id-like scalar reads
   * one row by `id`, a non-empty array filters on all its entries, and every
   * other shape (the empty array among them) runs no query.
   */
  function SelectPlanFor(table: string, condition: Condition): (plan: SelectPlan)
    ensures plan.ManyRows? <==> condition.Absent? || (condition.ArrayArg? && condition.entries != [])
    ensures plan.OneRow? <==> IdLike(condition)
    ensures plan.NoQuery? <==>
      condition == ArrayArg([]) || condition.OtherArg? || (condition.StringArg? && !AllDigits(condition.s))
    ensures condition.Absent? ==> plan.stmt.params == []
    ensures condition.ArrayArg? && plan.ManyRows? ==> plan.stmt.params == condition.entries
    ensures condition.IntArg? ==> plan.stmt.params == [(":id", Integer(condition.n))]
    ensures IdLike(condition) && condition.StringArg? ==> plan.stmt.params == [(":id", Text(condition.s))]
  {
    match condition
    case Absent => ManyRows(Prepared(SelectAllSql(table), []))
    case IntArg(n) => OneRow(Prepared(SelectAllSql(table) + " WHERE id = :id", [(":id", Integer(n))]))
    case StringArg(s) =>
      if AllDigits(s) then OneRow(Prepared(SelectAllSql(table) + " WHERE id = :id", [(":id", Text(s))]))
      else NoQuery
    case ArrayArg(entries) =>
      if entries == [] then NoQuery
      else ManyRows(Prepared(SelectAllSql(table) + " WHERE " + Join(" AND ", ClauseList(Keys(entries))), entries))
    case OtherArg => NoQuery
  }

  /** `select` (and, for null, `select_all`) as `select` builds it, step by step. */
  method BuildSelect(table: string, condition: Condition) returns (plan: SelectPlan)
    ensures plan == SelectPlanFor(table, condition)
  {
    if condition.Absent? {
      return ManyRows(Prepared("SELECT * FROM " + QuoteIdentifier(table), []));
    }
    var sql := "SELECT * FROM " + QuoteIdentifier(table);
    if condition.IntArg? || (condition.StringArg? && AllDigits(condition.s)) {
      sql := sql + " WHERE id = :id";
      var id := if condition.IntArg? then Integer(condition.n) else Text(condition.s);
      return OneRow(Prepared(sql, [(":id", id)]));
    } else if condition.ArrayArg? && condition.entries != [] {
      var whereClauses := CollectClauses(condition.entries);
      sql := sql + " WHERE " + Join(" AND ", whereClauses);
      return ManyRows(Prepared(sql, condition.entries));
    }
    return NoQuery;
  }

  function UpdateSql(table: string, keys: seq<string>): string
  {
    "UPDATE " + QuoteIdentifier(table) + " SET " + Join(", ", ClauseList(keys)) + " WHERE id = :id"
  }

  /**
   * `update`: refuses an empty payload; otherwise one SET clause per key of
   * `data`, and the bound parameters are `data` with `id` set to the
   * argument (overriding any `id` in `data`, changing nothing else).
   */
  function UpdateFor(table: string, data: Record, id: int): (r: Result<Prepared>)
    ensures r.Err? <==> data == []
    ensures r.Err? ==> r.error == EmptyPayload
    ensures r.Ok? ==> Lookup(r.value.params, "id") == Some(Integer(id))
    ensures r.Ok? ==> forall k :: k != "id" ==> Lookup(r.value.params, k) == Lookup(data, k)
    ensures r.Ok? ==> Keys(r.value.params) == if "id" in Keys(data) then Keys(data) else Keys(data) + ["id"]
    ensures r.Ok? && DistinctKeys(data) ==> DistinctKeys(r.value.params)
  {
    if data == [] then Err(EmptyPayload)
    else
      AssignLookups(data, "id", Integer(id));
      AssignKeys(data, "id", Integer(id));
      AssignDistinct(data, "id", Integer(id));
      Ok(Prepared(UpdateSql(table, Keys(data)), Assign(data, "id", Integer(id))))
  }

  /** `update`'s statement as `update` builds it: the SET loop, then `$data['id'] = $id`. */
  method BuildUpdate(table: string, data: Record, id: int) returns (r: Result<Prepared>)
    ensures r == UpdateFor(table, data, id)
  {
    if data == [] {
      return Err(EmptyPayload);
    }
    var setClauses := CollectClauses(data);
    var safeTable := QuoteIdentifier(table);
    var sql := "UPDATE " + safeTable + " SET " + Join(", ", setClauses) + " WHERE id = :id";
    var params := Assign(data, "id", Integer(id));
    r := Ok(Prepared(sql, params));
  }

  /** `delete`: always the same statement shape, with `:id` bound to the argument. */
  function BuildDelete(table: string, id: int): (stmt: Prepared)
    ensures Keys(stmt.params) == [":id"] && Lookup(stmt.params, ":id") == Some(Integer(id))
    ensures DropPrefix("DELETE FROM ", stmt.sql) == Some(QuoteIdentifier(table) + " WHERE id = :id")
  {
    var afterKeyword := QuoteIdentifier(table) + " WHERE id = :id";
    DropPrefixOfConcat("DELETE FROM ", afterKeyword);
    Prepared("DELETE FROM " + afterKeyword, [(":id", Integer(id))])
  }
}
