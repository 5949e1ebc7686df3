/**
 * The NiceSQLite object: the CRUD facade and the executor over one
 * connection. The connection is the only thing outside the model: every
 * request handed to it is appended to `issued`, and its answer to that
 * request arrives as the `reply` argument, either a result or the fault
 * that PDO throws. Faults are caught, logged and turned into the
 * sentinels `false`, `[]` or `0`.
 */
module Crud {
  import opened QueryBuilder

  /** What the connection answers: a result, or a PDOException with its message. */
  datatype Outcome<T> = Done(value: T) | Fault(message: string)

  /** A request handed to the connection: a prepared statement with its bindings, or raw SQL. */
  datatype Request = Execute(stmt: Prepared) | ExecRaw(sql: string)

  /** `insert`'s `string|false`. */
  datatype InsertReturn = InsertedId(id: string) | InsertFailed

  /** `fetchOne`'s row, or `false`. */
  datatype Row = Found(fields: Record) | NotFound

  /** `select`'s `array|false`: a list of rows, or `fetchOne`'s answer. */
  datatype Selection = Rows(rows: seq<Record>) | Single(row: Row)

  /** The error_log line written for a caught fault, if there was one. */
  function LogLine<T>(context: string, reply: Outcome<T>): seq<string>
  {
    if reply.Fault? then [context + reply.message] else []
  }

  class NiceSQLite {
    const dbPath: string
    var issued: seq<Request>
    var errorLog: seq<string>

    /** A freshly connected instance has sent nothing and logged nothing. */
    constructor (dbPath: string)
      ensures this.dbPath == dbPath
      ensures issued == [] && errorLog == []
    {
      this.dbPath := dbPath;
      issued := [];
      errorLog := [];
    }

    /** `fetchAll`: every row of the result, or `[]` on a fault. */
    method FetchAll(sql: string, params: Record, reply: Outcome<seq<Record>>) returns (rows: seq<Record>)
      modifies this
      ensures issued == old(issued) + [Execute(Prepared(sql, params))]
      ensures reply.Done? ==> rows == reply.value
      ensures reply.Fault? ==> rows == []
      ensures errorLog == old(errorLog) + LogLine("Gagal fetchAll: ", reply)
    {
      issued := issued + [Execute(Prepared(sql, params))];
      match reply
      case Done(result) =>
        rows := result;
      case Fault(message) =>
        errorLog := errorLog + ["Gagal fetchAll: " + message];
        rows := [];
    }

    /** `fetchOne`: the first row of the result; `false` when there is none or on a fault. */
    method FetchOne(sql: string, params: Record, reply: Outcome<seq<Record>>) returns (row: Row)
      modifies this
      ensures issued == old(issued) + [Execute(Prepared(sql, params))]
      ensures reply.Done? && reply.value != [] ==> row == Found(reply.value[0])
      ensures reply.Done? && reply.value == [] ==> row == NotFound
      ensures reply.Fault? ==> row == NotFound
      ensures errorLog == old(errorLog) + LogLine("Gagal fetchOne: ", reply)
    {
      issued := issued + [Execute(Prepared(sql, params))];
      match reply
      case Done(result) =>
        row := if result == [] then NotFound else Found(result[0]);
      case Fault(message) =>
        errorLog := errorLog + ["Gagal fetchOne: " + message];
        row := NotFound;
    }

    /** `exec`: raw SQL, unescaped; true exactly when it ran without a fault. */
    method Exec(sql: string, reply: Outcome<()>) returns (ok: bool)
      modifies this
      ensures issued == old(issued) + [ExecRaw(sql)]
      ensures ok <==> reply.Done?
      ensures errorLog == old(errorLog) + LogLine("Gagal exec: ", reply)
    {
      issued := issued + [ExecRaw(sql)];
      if reply.Fault? {
        errorLog := errorLog + ["Gagal exec: " + reply.message];
        return false;
      }
      return true;
    }

    /**
     * `insert`: an empty payload returns false without touching the
     * connection; otherwise the built insert is executed and the new row's
     * id is returned, or false on a fault.
     */
    method Insert(table: string, data: Record, reply: Outcome<string>) returns (r: InsertReturn)
      modifies this
      ensures data == [] ==> r == InsertFailed && issued == old(issued) && errorLog == old(errorLog)
      ensures data != [] ==> issued == old(issued) + [Execute(BuildInsert(table, data).value)]
      ensures data != [] && reply.Done? ==> r == InsertedId(reply.value)
      ensures data != [] && reply.Fault? ==> r == InsertFailed
      ensures data != [] ==> errorLog == old(errorLog) + LogLine("Gagal insert: ", reply)
    {
      var built := BuildInsert(table, data);
      if built.Err? {
        return InsertFailed;
      }
      issued := issued + [Execute(built.value)];
      match reply
      case Done(lastInsertId) =>
        r := InsertedId(lastInsertId);
      case Fault(message) =>
        errorLog := errorLog + ["Gagal insert: " + message];
        r := InsertFailed;
    }

    /** `select_all`: every row of the table, or `[]` on a fault. */
    method SelectAll(table: string, reply: Outcome<seq<Record>>) returns (rows: seq<Record>)
      modifies this
      ensures issued == old(issued) + [Execute(Prepared(SelectAllSql(table), []))]
      ensures reply.Done? ==> rows == reply.value
      ensures reply.Fault? ==> rows == []
      ensures errorLog == old(errorLog) + LogLine("Gagal fetchAll: ", reply)
    {
      rows := FetchAll("SELECT * FROM " + Identifiers.QuoteIdentifier(table), [], reply);
    }

    /**
     * `select`: null goes to `select_all`, an id-like scalar to `fetchOne`,
     * a non-empty array to `fetchAll`; every other condition returns `[]`
     * without touching the connection.
     */
    method Select(table: string, condition: Condition, reply: Outcome<seq<Record>>) returns (s: Selection)
      modifies this
      ensures SelectPlanFor(table, condition).NoQuery? ==>
                s == Rows([]) && issued == old(issued) && errorLog == old(errorLog)
      ensures SelectPlanFor(table, condition).ManyRows? ==>
                && issued == old(issued) + [Execute(SelectPlanFor(table, condition).stmt)]
                && s == Rows(if reply.Done? then reply.value else [])
                && errorLog == old(errorLog) + LogLine("Gagal fetchAll: ", reply)
      ensures SelectPlanFor(table, condition).OneRow? ==>
                && issued == old(issued) + [Execute(SelectPlanFor(table, condition).stmt)]
                && s == Single(if reply.Done? && reply.value != [] then Found(reply.value[0]) else NotFound)
                && errorLog == old(errorLog) + LogLine("Gagal fetchOne: ", reply)
    {
      if condition.Absent? {
        var rows := SelectAll(table, reply);
        return Rows(rows);
      }
      var plan := BuildSelect(table, condition);
      match plan
      case OneRow(stmt) =>
        var row := FetchOne(stmt.sql, stmt.params, reply);
        s := Single(row);
      case ManyRows(stmt) =>
        var rows := FetchAll(stmt.sql, stmt.params, reply);
        s := Rows(rows);
      case NoQuery =>
        s := Rows([]);
    }

    /**
     * `update`: an empty payload returns false without touching the
     * connection; otherwise true exactly when the statement ran and
     * affected at least one row.
     */
    method Update(table: string, data: Record, id: int, reply: Outcome<nat>) returns (ok: bool)
      modifies this
      ensures data == [] ==> !ok && issued == old(issued) && errorLog == old(errorLog)
      ensures data != [] ==> issued == old(issued) + [Execute(UpdateFor(table, data, id).value)]
      ensures data != [] ==> (ok <==> reply.Done? && reply.value > 0)
      ensures data != [] ==> errorLog == old(errorLog) + LogLine("Gagal update: ", reply)
    {
      var built := BuildUpdate(table, data, id);
      if built.Err? {
        return false;
      }
      issued := issued + [Execute(built.value)];
      match reply
      case Done(rowCount) =>
        ok := rowCount > 0;
      case Fault(message) =>
        errorLog := errorLog + ["Gagal update: " + message];
        ok := false;
    }

    /** `delete`: the number of rows removed, or 0 on a fault. */
    method Delete(table: string, id: int, reply: Outcome<nat>) returns (count: nat)
      modifies this
      ensures issued == old(issued) + [Execute(BuildDelete(table, id))]
      ensures reply.Done? ==> count == reply.value
      ensures reply.Fault? ==> count == 0
      ensures errorLog == old(errorLog) + LogLine("Gagal delete: ", reply)
    {
      issued := issued + [Execute(BuildDelete(table, id))];
      match reply
      case Done(rowCount) =>
        count := rowCount;
      case Fault(message) =>
        errorLog := errorLog + ["Gagal delete: " + message];
        count := 0;
    }
  }
}
