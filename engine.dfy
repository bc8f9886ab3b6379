/**
 * The embedded SQLite engine (sql.js) as an abstract oracle. A database is a
 * value; a statement that changes it yields the new value, which the caller
 * threads on, just as sql.js changes its database object in place.
 */
module Engine {
  import opened Types

  /** What the model keeps of a database: its tables' definitions in catalog order and their rows. */
  datatype Db = Db(definitions: seq<string>, rows: map<string, seq<seq<Value>>>)

  /** The empty in-memory database that `new SQL.Database()` opens. */
  const EmptyDb := Db([], map[])

  /** One statement's result as `exec` returns it: the column names and the value rows. */
  datatype ResultSet = ResultSet(columns: seq<string>, values: seq<seq<Value>>)

  /** `db.exec(sql)`: either it throws with a message, or it yields the new database and one result set per statement that produced rows. */
  datatype ExecResult = ExecFailed(message: string) | Executed(db: Db, results: seq<ResultSet>)

  /** `db.run(sql, params)`: either it throws, or it yields the new database. */
  datatype RunResult = RunFailed(message: string) | Ran(db: Db)

  /** The engine's behaviour, supplied from outside the model. */
  datatype Engine = Engine(exec: (Db, string) -> ExecResult, run: (Db, string, seq<Value>) -> RunResult)

  /** The catalog query the merge and the schema refresh both issue. */
  const TablesWithSql := "SELECT sql FROM sqlite_master WHERE type='table' AND name NOT LIKE 'sqlite_%';"
  const TableNames := "SELECT name FROM sqlite_master WHERE type='table' AND name NOT LIKE 'sqlite_%';"

  /** `row[i]` read as text: a missing or null cell reads as the empty string. */
  function CellText(row: seq<Value>, i: nat): string {
    if i < |row| && row[i].Scalar? then row[i].text else ""
  }
}
