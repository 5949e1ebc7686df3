/**
 * Readers that take the built SQL text apart again (quoted names with
 * SQLite's delimiter rule, placeholders of the characters `[A-Za-z0-9_]`),
 * and the lemmas that every built statement reads back as the table, the
 * columns and the placeholders it was built from.
 */
module QueryReader {
  import opened Results
  import opened Strings
  import opened Identifiers
  import opened QueryBuilder

  function StripAll(names: seq<string>): seq<string>
  {
    seq(|names|, i requires 0 <= i < |names| => StripBackticks(names[i]))
  }

  lemma StripAllCons(names: seq<string>)
    requires names != []
    ensures StripAll(names) == [StripBackticks(names[0])] + StripAll(names[1..])
  {
    var l, r := StripAll(names), [StripBackticks(names[0])] + StripAll(names[1..]);
    assert |l| == |r|;
    forall i | 0 <= i < |l| ensures l[i] == r[i] {
      if i > 0 {
        assert r[i] == StripAll(names[1..])[i - 1] == StripBackticks(names[1..][i - 1]);
      }
    }
  }

  /** Each key paired with itself: column `k` compared with (or set to) placeholder `:k`. */
  function Pairs(keys: seq<string>): seq<(string, string)>
  {
    seq(|keys|, i requires 0 <= i < |keys| => (keys[i], keys[i]))
  }

  lemma PairsCons(keys: seq<string>)
    requires keys != []
    ensures Pairs(keys) == [(keys[0], keys[0])] + Pairs(keys[1..])
  {
    var l, r := Pairs(keys), [(keys[0], keys[0])] + Pairs(keys[1..]);
    assert |l| == |r|;
    forall i | 0 <= i < |l| ensures l[i] == r[i] {
      if i > 0 {
        assert r[i] == Pairs(keys[1..])[i - 1];
      }
    }
  }

  predicate PlainNames(keys: seq<string>)
  {
    forall i :: 0 <= i < |keys| ==> PlainName(keys[i])
  }

  /** A ", "-separated list of quoted names, and the text after it. */
  function ReadColumnList(s: string): (r: Option<(seq<string>, string)>)
    ensures r.Some? ==> |r.value.1| < |s|
    decreases |s|
  {
    var first :- ReadQuoted(s);
    match DropPrefix(", ", first.1)
    case Some(after) =>
      var more :- ReadColumnList(after);
      Some(([first.0] + more.0, more.1))
    case None => Some(([first.0], first.1))
  }

  /** A list of quoted names reads back as the names without their backticks, in order. */
  lemma {:induction false} ColumnListReadsBack(keys: seq<string>, rest: string)
    requires keys != []
    requires DropPrefix(", ", rest).None?
    requires rest == [] || rest[0] != Backtick
    ensures ReadColumnList(Join(", ", QuoteAll(keys)) + rest) == Some((StripAll(keys), rest))
  {
    var head := QuoteIdentifier(keys[0]);
    assert QuoteAll(keys)[0] == head;
    if |keys| == 1 {
      assert Join(", ", QuoteAll(keys)) == head;
      QuoteReadsBack(keys[0], rest);
      assert StripAll(keys) == [StripBackticks(keys[0])];
    } else {
      var tail := Join(", ", QuoteAll(keys[1..])) + rest;
      QuotedListSplit(keys, rest);
      QuoteReadsBack(keys[0], ", " + tail);
      DropPrefixOfConcat(", ", tail);
      ColumnListReadsBack(keys[1..], rest);
      StripAllCons(keys);
    }
  }

  lemma QuotedListSplit(keys: seq<string>, rest: string)
    requires |keys| > 1
    ensures Join(", ", QuoteAll(keys)) + rest
         == QuoteIdentifier(keys[0]) + (", " + (Join(", ", QuoteAll(keys[1..])) + rest))
  {
    assert QuoteAll(keys)[1..] == QuoteAll(keys[1..]);
  }

  /** One `<quoted column> = :<placeholder>` clause: the column, the placeholder, and the text after it. */
  function ReadClause(s: string): (r: Option<((string, string), string)>)
    ensures r.Some? ==> |r.value.1| < |s|
  {
    var column :- ReadQuoted(s);
    var afterEquals :- DropPrefix(" = :", column.1);
    var (placeholder, rest) := ReadName(afterEquals);
    if placeholder == [] then None else Some(((column.0, placeholder), rest))
  }

  /** Clauses separated by `sep`, and the text after the last one. */
  function ReadClauseList(sep: string, s: string): (r: Option<(seq<(string, string)>, string)>)
    decreases |s|
  {
    var first :- ReadClause(s);
    match DropPrefix(sep, first.1)
    case Some(after) =>
      var more :- ReadClauseList(sep, after);
      Some(([first.0] + more.0, more.1))
    case None => Some(([first.0], first.1))
  }

  lemma ClauseReadsBack(key: string, rest: string)
    requires PlainName(key)
    requires rest == [] || !IsNameChar(rest[0])
    ensures ReadClause(EqualityClause(key) + rest) == Some(((key, key), rest))
  {
    assert Backtick !in key by {
      forall i | 0 <= i < |key| ensures key[i] != Backtick { assert IsNameChar(key[i]); }
    }
    StripBacktickFree(key);
    assert EqualityClause(key) + rest == QuoteIdentifier(key) + (" = :" + (key + rest));
    QuoteReadsBack(key, " = :" + (key + rest));
    DropPrefixOfConcat(" = :", key + rest);
    ReadNameOfName(key, rest);
  }

  /**
   * Column/placeholder correspondence: for keys that are valid placeholder
   * names, the joined clauses read back as exactly one clause per key, in
   * order, each comparing column `k` with placeholder `:k`.
   */
  lemma {:induction false} ClauseListReadsBack(sep: string, keys: seq<string>, rest: string)
    requires keys != [] && PlainNames(keys)
    requires sep != [] && !IsNameChar(sep[0])
    requires DropPrefix(sep, rest).None?
    requires rest == [] || !IsNameChar(rest[0])
    ensures ReadClauseList(sep, Join(sep, ClauseList(keys)) + rest) == Some((Pairs(keys), rest))
  {
    var head := EqualityClause(keys[0]);
    if |keys| == 1 {
      assert Join(sep, ClauseList(keys)) == head;
      ClauseReadsBack(keys[0], rest);
      assert Pairs(keys) == [(keys[0], keys[0])];
    } else {
      var tail := Join(sep, ClauseList(keys[1..])) + rest;
      assert ClauseList(keys)[1..] == ClauseList(keys[1..]);
      assert Join(sep, ClauseList(keys)) + rest == head + (sep + tail);
      ClauseReadsBack(keys[0], sep + tail);
      DropPrefixOfConcat(sep, tail);
      ClauseListReadsBack(sep, keys[1..], rest);
      PairsCons(keys);
    }
  }

  /** `INSERT INTO <table> (<columns>) VALUES (<values>)`: the table, the columns and the values text. */
  function ReadInsert(sql: string): Option<(string, seq<string>, string)>
  {
    var afterKeyword :- DropPrefix("INSERT INTO ", sql);
    var table :- ReadQuoted(afterKeyword);
    var body :- ReadInsertBody(table.1);
    Some((table.0, body.0, body.1))
  }

  /** ` (<columns>) VALUES (<values>)`, the part of an insert after the table name. */
  function ReadInsertBody(s: string): Option<(seq<string>, string)>
  {
    var afterTable :- DropPrefix(" (", s);
    var columns :- ReadColumnList(afterTable);
    var values :- DropPrefix(") VALUES (", columns.1);
    if |values| > 0 && values[|values| - 1] == ')' then
      Some((columns.0, values[..|values| - 1]))
    else None
  }

  /**
   * An insert names the table and one column per key of the payload, in
   * order, and lists the placeholder `:k` of every key in the same order.
   */
  lemma InsertReadsBack(table: string, data: Record)
    requires data != []
    ensures ReadInsert(BuildInsert(table, data).value.sql)
         == Some((StripBackticks(table), StripAll(Keys(data)), Join(", ", Placeholders(Keys(data)))))
  {
    var keys := Keys(data);
    var placeholders := Join(", ", Placeholders(keys));
    InsertSqlNesting(QuoteIdentifier(table), Join(", ", QuoteAll(keys)), placeholders);
    InsertTextReadsBack(table, keys, placeholders);
  }

  lemma InsertSqlNesting(table: string, columns: string, values: string)
    ensures "INSERT INTO " + table + " (" + columns + ") VALUES (" + values + ")"
         == "INSERT INTO " + (table + (" (" + (columns + (") VALUES (" + (values + ")")))))
  {
  }

  lemma InsertTextReadsBack(table: string, keys: seq<string>, placeholders: string)
    requires keys != []
    ensures ReadInsert("INSERT INTO " + (QuoteIdentifier(table) + (" (" + (Join(", ", QuoteAll(keys)) + (") VALUES (" + (placeholders + ")"))))))
         == Some((StripBackticks(table), StripAll(keys), placeholders))
  {
    var afterTable := Join(", ", QuoteAll(keys)) + (") VALUES (" + (placeholders + ")"));
    var afterKeyword := QuoteIdentifier(table) + (" (" + afterTable);
    DropPrefixOfConcat("INSERT INTO ", afterKeyword);
    QuoteReadsBack(table, " (" + afterTable);
    InsertBodyReadsBack(keys, placeholders);
  }

  lemma InsertBodyReadsBack(keys: seq<string>, placeholders: string)
    requires keys != []
    ensures ReadInsertBody(" (" + (Join(", ", QuoteAll(keys)) + (") VALUES (" + (placeholders + ")"))))
         == Some((StripAll(keys), placeholders))
  {
    var values := placeholders + ")";
    var afterColumns := ") VALUES (" + values;
    var afterTable := Join(", ", QuoteAll(keys)) + afterColumns;
    DropPrefixOfConcat(" (", afterTable);
    DropPrefixMismatch(", ", afterColumns);
    assert afterColumns[0] == ')';
    ColumnListReadsBack(keys, afterColumns);
    DropPrefixOfConcat(") VALUES (", values);
    assert values[..|values| - 1] == placeholders;
  }

  /** `SELECT * FROM <table>[ WHERE <condition>]`: the table and the condition text, if any. */
  function ReadSelect(sql: string): Option<(string, Option<string>)>
  {
    var afterKeyword :- DropPrefix("SELECT * FROM ", sql);
    var table :- ReadQuoted(afterKeyword);
    if table.1 == [] then Some((table.0, None))
    else
      var condition :- DropPrefix(" WHERE ", table.1);
      Some((table.0, Some(condition)))
  }

  /** `select_all`, and `select` with null, read back as the whole table. */
  lemma SelectAllReadsBack(table: string)
    ensures ReadSelect(SelectPlanFor(table, Absent).stmt.sql) == Some((StripBackticks(table), None))
  {
    assert SelectAllSql(table) == "SELECT * FROM " + (QuoteIdentifier(table) + []);
    DropPrefixOfConcat("SELECT * FROM ", QuoteIdentifier(table) + []);
    QuoteReadsBack(table, []);
  }

  lemma SelectWhereText(table: string, condition: string)
    ensures ReadSelect(SelectAllSql(table) + (" WHERE " + condition)) == Some((StripBackticks(table), Some(condition)))
  {
    var afterTable := " WHERE " + condition;
    assert SelectAllSql(table) + afterTable == "SELECT * FROM " + (QuoteIdentifier(table) + afterTable);
    DropPrefixOfConcat("SELECT * FROM ", QuoteIdentifier(table) + afterTable);
    QuoteReadsBack(table, afterTable);
    DropPrefixOfConcat(" WHERE ", condition);
  }

  /** `select` with an int or a digit string reads back as the table filtered by `id = :id`. */
  lemma SelectByIdReadsBack(table: string, condition: Condition)
    requires IdLike(condition)
    ensures ReadSelect(SelectPlanFor(table, condition).stmt.sql) == Some((StripBackticks(table), Some("id = :id")))
  {
    var byId := "id = :id";
    assert SelectPlanFor(table, condition).stmt.sql == SelectAllSql(table) + (" WHERE " + byId);
    SelectWhereText(table, byId);
  }

  /**
   * `select` with a non-empty array of plain keys reads back as the table
   * filtered by one clause per entry, in order, comparing column `k` with
   * placeholder `:k`.
   */
  lemma SelectWhereReadsBack(table: string, entries: Record)
    requires entries != [] && PlainNames(Keys(entries))
    ensures var where := Join(" AND ", ClauseList(Keys(entries)));
            && ReadSelect(SelectPlanFor(table, ArrayArg(entries)).stmt.sql) == Some((StripBackticks(table), Some(where)))
            && ReadClauseList(" AND ", where) == Some((Pairs(Keys(entries)), []))
  {
    var where := Join(" AND ", ClauseList(Keys(entries)));
    assert SelectPlanFor(table, ArrayArg(entries)).stmt.sql == SelectAllSql(table) + (" WHERE " + where);
    SelectWhereText(table, where);
    ClauseListReadsBack(" AND ", Keys(entries), []);
    assert where + [] == where;
  }

  /** `UPDATE <table> SET <clauses> WHERE id = :id`: the table and the SET clauses. */
  function ReadUpdate(sql: string): Option<(string, seq<(string, string)>)>
  {
    var afterKeyword :- DropPrefix("UPDATE ", sql);
    var table :- ReadQuoted(afterKeyword);
    var afterSet :- DropPrefix(" SET ", table.1);
    var assignments :- ReadClauseList(", ", afterSet);
    if assignments.1 == " WHERE id = :id" then Some((table.0, assignments.0)) else None
  }

  /**
   * For plain keys, an update reads back as the table and one SET clause
   * per key of the payload, in order, setting column `k` to placeholder `:k`.
   */
  lemma UpdateReadsBack(table: string, data: Record, id: int)
    requires data != [] && PlainNames(Keys(data))
    ensures ReadUpdate(UpdateFor(table, data, id).value.sql) == Some((StripBackticks(table), Pairs(Keys(data))))
  {
    UpdateSqlReadsBack(table, Keys(data));
  }

  lemma UpdateSqlReadsBack(table: string, keys: seq<string>)
    requires keys != [] && PlainNames(keys)
    ensures ReadUpdate(UpdateSql(table, keys)) == Some((StripBackticks(table), Pairs(keys)))
  {
    var tail := " WHERE id = :id";
    var afterSet := Join(", ", ClauseList(keys)) + tail;
    var afterKeyword := QuoteIdentifier(table) + (" SET " + afterSet);
    UpdateSqlNesting(table, keys);
    DropPrefixOfConcat("UPDATE ", afterKeyword);
    QuoteReadsBack(table, " SET " + afterSet);
    SetListReadsBack(keys);
  }

  lemma UpdateSqlNesting(table: string, keys: seq<string>)
    ensures UpdateSql(table, keys)
         == "UPDATE " + (QuoteIdentifier(table) + (" SET " + (Join(", ", ClauseList(keys)) + " WHERE id = :id")))
  {
  }

  /** The SET list of an update, up to its WHERE clause. */
  lemma SetListReadsBack(keys: seq<string>)
    requires keys != [] && PlainNames(keys)
    ensures var afterSet := Join(", ", ClauseList(keys)) + " WHERE id = :id";
            DropPrefix(" SET ", " SET " + afterSet) == Some(afterSet)
            && ReadClauseList(", ", afterSet) == Some((Pairs(keys), " WHERE id = :id"))
  {
    var tail := " WHERE id = :id";
    DropPrefixOfConcat(" SET ", Join(", ", ClauseList(keys)) + tail);
    DropPrefixMismatch(", ", tail);
    ClauseListReadsBack(", ", keys, tail);
  }

  /** `DELETE FROM <table> WHERE id = :id`: the table. */
  function ReadDelete(sql: string): Option<string>
  {
    var afterKeyword :- DropPrefix("DELETE FROM ", sql);
    var table :- ReadQuoted(afterKeyword);
    if table.1 == " WHERE id = :id" then Some(table.0) else None
  }

  /** A delete names the table and binds `:id` to the id argument and nothing else. */
  lemma DeleteReadsBack(table: string, id: int)
    ensures ReadDelete(BuildDelete(table, id).sql) == Some(StripBackticks(table))
    ensures BuildDelete(table, id).params == [(":id", Integer(id))]
  {
    var afterKeyword := QuoteIdentifier(table) + " WHERE id = :id";
    assert BuildDelete(table, id).sql == "DELETE FROM " + afterKeyword;
    DropPrefixOfConcat("DELETE FROM ", afterKeyword);
    QuoteReadsBack(table, " WHERE id = :id");
  }
}
