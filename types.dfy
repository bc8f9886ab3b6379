/**
 * The records shared by the engine and its views (`Table`, `Column`, `Query`),
 * the cell values the embedded database hands back, and result rows as the
 * ordered column -> value records that `Object.fromEntries` builds.
 */
module Types {
  import opened Wrappers

  /**
   * A cell value. `Scalar` carries the text `value.toString()` yields, which is
   * all the engine ever does with a non-null value.
   */
  datatype Value = Null | Scalar(text: string)

  /** A result record: its entries in key order, each key once. */
  type Row = seq<(string, Value)>

  function Keys(row: Row): (ks: seq<string>)
    ensures |ks| == |row| && forall i :: 0 <= i < |row| ==> ks[i] == row[i].0
  {
    if row == [] then [] else [row[0].0] + Keys(row[1..])
  }

  /** Property access `row[key]`: `None` stands for `undefined`. */
  function Lookup(row: Row, key: string): (r: Option<Value>)
    ensures r.None? <==> key !in Keys(row)
    ensures r.Some? ==> (key, r.value) in row
  {
    if row == [] then None
    else if row[0].0 == key then Some(row[0].1)
    else Lookup(row[1..], key)
  }

  /** No key occurs twice. */
  predicate DistinctKeys(row: Row) {
    forall i, j :: 0 <= i < j < |row| ==> row[i].0 != row[j].0
  }

  /** A column as the schema view shows it: its name and declared type. */
  datatype Column = Column(name: string, declaredType: string)

  /**
   * A table of the merged schema. `expanded` and `database` are optional in
   * the record type; `None` stands for an absent property.
   */
  datatype Table = Table(
    name: string,
    id: string,
    columns: seq<Column>,
    expanded: Option<bool>,
    database: Option<string>)

  /** One entry of the query history. */
  datatype Query = Query(id: string, timestamp: string, sql: string, executionTime: string, rows: nat)
}
