# NiceSQLite: query construction and identifier safety

NiceSQLite is a small PHP data-access class over one SQLite connection. It
offers `insert`, `select`, `select_all`, `update` and `delete`, plus the raw
escapes `fetchAll`, `fetchOne` and `exec`. This project models the part of
the class with real decisions in it:

- how table and column names are quoted (`quoteIdentifier`);
- how a dynamic column is checked against a whitelist (`validateColumn`);
- how the SQL text and the bound-parameter list of each CRUD statement are
  built, including `select`'s dispatch on the shape of its condition;
- how every execution method turns a caught fault into its sentinel:
  `false`, `[]` or `0`.

Modules:

- `Results`: `Option`, `Result` and the caller errors `EmptyPayload` and
  `InvalidColumn`.
- `Strings`: `implode` (`Join`), prefix matching, and the placeholder-name
  characters this model reads (`[A-Za-z0-9_]`, a subset of what SQLite
  accepts after `:`).
- `Identifiers`: backtick stripping, quoting, the whitelist check, and
  `ReadQuoted`. `ReadQuoted` reads a backtick-quoted name with SQLite's
  delimiter rule: the span ends at the first backtick that is not doubled,
  and a doubled backtick inside it stands for one backtick of the name.
  Unlike SQLite, it does not stop at a NUL character.
- `QueryBuilder`: records (ordered key/value lists), the statement
  builders, and the `foreach` loops of `select` and `update`.
- `QueryReader`: readers that take each built statement apart again. The
  read-back lemmas say that a statement names the quoted table, and the
  columns and placeholders it was built from, one for one and in order.
- `Crud`: the `NiceSQLite` class. The connection is outside the model.
  Every request handed to it is appended to the field `issued`. Its answer
  to that request is the method's `reply` argument: a result, or the fault
  PDO throws. Caught faults are appended to `errorLog`.

Details of the PHP behaviour the model keeps:

- `select` treats a string of decimal digits like an int id
  (NiceSQLite.php:104), and `ctype_digit("")` is false, so the empty string
  is not an id.
- Any condition that is not null, not id-like and not a non-empty array
  runs no query and returns `[]` (NiceSQLite.php:121-123). This covers a
  float, a bool, a non-digit string and the empty array.
- `validateColumn` checks the column against a list of allowed names
  (NiceSQLite.php:277-279).
- `fetchOne` returns `false` both for no row and for a fault
  (NiceSQLite.php:227-230).

## Model

| member | source | states |
|---|---|---|
| `Identifiers.StripBackticks` | NiceSQLite.php:263 | the result contains no backtick |
| `Identifiers.StripKeepsOtherChars` | NiceSQLite.php:263 | every character other than a backtick survives the removal, as often as it occurred |
| `Identifiers.StripConcat` | NiceSQLite.php:263 | removing backticks works piecewise over concatenation, so the other characters keep their order |
| `Identifiers.StripBacktickFree` | NiceSQLite.php:262-263 | a name without backticks is left unchanged |
| `Identifiers.QuoteIdentifier` | NiceSQLite.php:260-266 | the result starts and ends with a backtick and has no backtick in between; its interior holds exactly the characters of the name other than backticks |
| `Identifiers.QuoteIdempotent` | NiceSQLite.php:262-265 | quoting a quoted name gives the same quoted name, so there is no double quoting |
| `Identifiers.QuoteCollision` | NiceSQLite.php:262-265 | two names quote alike exactly when they are equal once backticks are removed |
| `Identifiers.QuoteReadsBack` | NiceSQLite.php:253-266 | followed by any text that does not start with a backtick, a quoted name reads back, under SQLite's delimiter rule for a backtick-quoted span, as the name without backticks, and reading resumes right after it, so the name cannot end its quoted span early |
| `Identifiers.QuoteThenBacktick` | NiceSQLite.php:262-265 | a backtick right after the closing one is read as doubling it, so then the quoted name does not read back alone |
| `Identifiers.ValidateColumn` | NiceSQLite.php:277-283 | succeeds exactly when the column is in the allowed list; then returns `quoteIdentifier(column)`, otherwise an `InvalidColumn` error naming the column |
| `Identifiers.ValidatedColumnReadsBack` | NiceSQLite.php:268-283 | a validated column reads back as a single quoted name of an allowed column |
| `Identifiers.WhitelistRefuses` | NiceSQLite.php:279-280 | `validateColumn("secret", ["id","name"])` fails with `InvalidColumn("secret")` |
| `Identifiers.WhitelistAccepts` | NiceSQLite.php:279-282 | a listed column without backticks, such as `name`, comes back simply wrapped in backticks |
| `QueryBuilder.Assign` | NiceSQLite.php:160 | after `$r[$k] = $v`, key `k` maps to `v`; a missing key is appended at the end, and an existing key keeps the array's size |
| `QueryBuilder.AssignLookup` | NiceSQLite.php:160 | after `$r[$k] = $v`, key `k` maps to `v` and every other key keeps its value |
| `QueryBuilder.AssignKeys` | NiceSQLite.php:160 | `$r[$k] = $v` keeps the existing keys in order and appends `k` only when it was missing |
| `QueryBuilder.AssignDistinct` | NiceSQLite.php:160 | `$r[$k] = $v` keeps the array's keys unique |
| `QueryBuilder.PlaceholderListJoin` | NiceSQLite.php:69 | `':' . implode(', :', keys)` equals the list of `:k` placeholders, one per key in key order, joined by `, ` |
| `QueryBuilder.BuildInsert` | NiceSQLite.php:62-72 | an empty payload gives `EmptyPayload`; otherwise the statement is `INSERT INTO <q(table)> (<q(k1)>, …) VALUES (:k1, …)` over the keys in order, with the payload itself bound |
| `QueryBuilder.CollectClauses` | NiceSQLite.php:112-115 | the `foreach` yields one `<q(k)> = :k` clause per key, in key order |
| `QueryBuilder.IdLike` | NiceSQLite.php:104 | every int is an id; a string is one exactly when it is non-empty and all decimal digits; no other shape is |
| `QueryBuilder.SelectPlanFor` | NiceSQLite.php:94-124 | null gives `fetchAll` with no parameters. An id-like scalar (int or digit string) gives `fetchOne` with `:id` bound to it. A non-empty array gives `fetchAll` with the array bound. Every other shape, including the empty array, gives no query. |
| `QueryBuilder.BuildSelect` | NiceSQLite.php:97-120 | the step-by-step construction equals `SelectPlanFor` for every table and condition |
| `QueryBuilder.UpdateFor` | NiceSQLite.php:145-160 | an empty payload gives `EmptyPayload`. Otherwise the bound `id` is the argument and every other key keeps the payload's value. Keys keep their order, with `id` appended only when it was missing, and stay unique. |
| `QueryBuilder.BuildUpdate` | NiceSQLite.php:151-160 | the SET loop followed by `$data['id'] = $id` equals `UpdateFor` for every input |
| `QueryBuilder.BuildDelete` | NiceSQLite.php:181-185 | the statement is `DELETE FROM ` followed by the quoted table and ` WHERE id = :id`, and `:id`, bound to the id argument, is its only parameter |
| `QueryReader.ColumnListReadsBack` | NiceSQLite.php:68 | the quoted column list, followed by text that does not start with a backtick, reads back as the keys without backticks, one per key, in order |
| `QueryReader.ClauseListReadsBack` | NiceSQLite.php:113-116 | when the keys are plain placeholder names (`[A-Za-z0-9_]+`), the joined clauses read back as one clause per key, in order, each comparing column `k` with placeholder `:k` |
| `QueryReader.InsertReadsBack` | NiceSQLite.php:68-72 | an insert reads back as the table, one column per key in order, and the `:k` placeholder of every key in the same order |
| `QueryReader.SelectAllReadsBack` | NiceSQLite.php:132-135 | `select_all` and `select` with null read back as the whole table, with no WHERE |
| `QueryReader.SelectByIdReadsBack` | NiceSQLite.php:104-107 | `select` with an id-like condition reads back as the table filtered by `id = :id` |
| `QueryReader.SelectWhereReadsBack` | NiceSQLite.php:110-117 | `select` with a non-empty array of plain keys reads back as one `AND`-ed clause per entry, in order, comparing column `k` with `:k` |
| `QueryReader.UpdateReadsBack` | NiceSQLite.php:151-157 | for plain keys, an update reads back as the table and one SET clause per payload key, in order, followed by `WHERE id = :id` |
| `QueryReader.DeleteReadsBack` | NiceSQLite.php:179-185 | a delete always reads back as `DELETE FROM` the table `WHERE id = :id`, with only `:id` bound, to the id argument |
| `Crud.NiceSQLite.constructor` | NiceSQLite.php:30-32 | a new instance keeps its path and has issued nothing and logged nothing |
| `Crud.NiceSQLite.FetchAll` | NiceSQLite.php:201-211 | issues the statement once; returns the result rows, or `[]` and one log line on a fault |
| `Crud.NiceSQLite.FetchOne` | NiceSQLite.php:222-232 | issues the statement once; returns the first row, or `false` when there is none or on a fault (which is also logged) |
| `Crud.NiceSQLite.Exec` | NiceSQLite.php:242-251 | issues the raw SQL once; true exactly when it ran without a fault |
| `Crud.NiceSQLite.Insert` | NiceSQLite.php:62-82 | with an empty payload returns false and issues and logs nothing; otherwise issues the built insert and returns the new id, or false on a fault |
| `Crud.NiceSQLite.SelectAll` | NiceSQLite.php:132-135 | issues `SELECT * FROM <q(table)>` with no parameters; returns the rows, or `[]` on a fault |
| `Crud.NiceSQLite.Select` | NiceSQLite.php:94-124 | follows `SelectPlanFor`: no query gives `[]` with nothing issued; otherwise issues the planned statement and returns `fetchAll`'s or `fetchOne`'s result, with the same fault sentinels |
| `Crud.NiceSQLite.Update` | NiceSQLite.php:145-170 | with an empty payload returns false and issues nothing; otherwise issues the built update and returns true exactly when it ran and affected at least one row |
| `Crud.NiceSQLite.Delete` | NiceSQLite.php:179-191 | issues the built delete; returns the affected-row count, or 0 on a fault |

## Left out

- The constructor's directory creation (`mkdir`), the opening of the PDO connection, the connection attributes, and the `die` on a connection failure (NiceSQLite.php:33-52). They are I/O with no decision of the core in them.
- What SQLite does with a statement: stored rows, `lastInsertId`, `rowCount` and `fetch`. The connection's answer to each request is an argument (`reply`), not computed.
- The process-level logger. The lines that `error_log` would receive are kept in the field `errorLog`, and nothing reads them back.
- `Identifiers.ValidateColumn`: uses exact list membership instead of PHP's loose `in_array` comparison, under which `"1"` also matches `"01"`.
- `Identifiers.QuoteReadsBack`: also covers names that contain a NUL character. SQLite's tokenizer stops at a NUL inside a quoted span and reports an unrecognized token, so `prepare` throws and such a statement never runs rather than reading back. `ReadQuoted` does not model that stop.
- `QueryReader.ClauseListReadsBack`: proved only for keys made of the placeholder-name characters this model reads (`[A-Za-z0-9_]+`, a subset of what SQLite accepts after `:`). The placeholder `:{$key}` is not quoted, so any other key puts its raw text into the SQL.
- `QueryReader.SelectWhereReadsBack`: same restriction to placeholder-name keys, for the same reason.
- `QueryReader.UpdateReadsBack`: same restriction to placeholder-name keys, for the same reason.
- PHP integer array keys, and PHP's conversion of numeric-string keys to integers. Record keys are strings here.
- The 64-bit width of PHP integers. `Integer` and the `id` arguments are unbounded.
- Float and binary bound values are carried as raw bits and bytes. The builders never inspect them.
