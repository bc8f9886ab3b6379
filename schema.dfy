/**
 * The schema snapshot of the merged database (`refreshSchema` in
 * src/App.tsx): one `Table` per catalog entry, in catalog order, with its
 * columns, collapsed, and attributed to the first uploaded database whose
 * catalog declares a table of that name.
 */
module Schema {
  import opened Wrappers
  import opened Text
  import opened Types
  import opened Engine

  /** The statement that asks one database whether it declares `name`. */
  function ProbeSql(name: string): string {
    "SELECT name FROM sqlite_master WHERE type='table' AND name='" + name + "';"
  }

  function ColumnsSql(name: string): string {
    "PRAGMA table_info(" + name + ");"
  }

  /** A probe that ran and returned at least one row. */
  predicate Found(probe: ExecResult) {
    probe.Executed? && |probe.results| > 0 && |probe.results[0].values| > 0
  }

  predicate Declares(eng: Engine, db: Db, name: string) {
    Found(eng.exec(db, ProbeSql(name)))
  }

  /** The probe of database `j` throws, and every probe before it, from `from` on, ran and found nothing. */
  predicate ThrowsFirst(eng: Engine, instances: seq<Db>, name: string, from: nat, j: int) {
    && from <= j < |instances| && eng.exec(instances[j], ProbeSql(name)).ExecFailed?
    && forall k :: from <= k < j ==> eng.exec(instances[k], ProbeSql(name)).Executed? && !Declares(eng, instances[k], name)
  }

  /**
   * The provenance search from index `from` on: the least index whose
   * database declares `name`, or -1 when none does. A probe that throws
   * aborts the search.
   */
  function Provenance(eng: Engine, instances: seq<Db>, name: string, from: nat): (r: Result<int>)
    requires from <= |instances|
    ensures r.Success? ==> r.value == -1 || from <= r.value < |instances|
    ensures r.Success? && r.value >= 0 ==> Declares(eng, instances[r.value], name)
    ensures r.Success? ==> forall j :: from <= j < |instances| && (r.value == -1 || j < r.value) ==> !Declares(eng, instances[j], name)
    ensures r.Failure? ==> exists j :: ThrowsFirst(eng, instances, name, from, j) && r.error == eng.exec(instances[j], ProbeSql(name)).message
    decreases |instances| - from
  {
    if from == |instances| then Success(-1)
    else
      match eng.exec(instances[from], ProbeSql(name))
      case ExecFailed(m) => Failure(m)
      case Executed(_, results) =>
        if |results| > 0 && |results[0].values| > 0 then Success(from)
        else Provenance(eng, instances, name, from + 1)
  }

  /** The loop over `dbInstances` with its early `break`. */
  method ResolveProvenance(eng: Engine, instances: seq<Db>, name: string) returns (r: Result<int>)
    ensures r == Provenance(eng, instances, name, 0)
  {
    var dbIndex := -1;
    var i := 0;
    while i < |instances|
      invariant 0 <= i <= |instances|
      invariant Provenance(eng, instances, name, 0) == Provenance(eng, instances, name, i)
    {
      var probe := eng.exec(instances[i], ProbeSql(name));
      if probe.ExecFailed? {
        return Failure(probe.message);
      }
      if |probe.results| > 0 && |probe.results[0].values| > 0 {
        dbIndex := i;
        break;
      }
      i := i + 1;
    }
    return Success(dbIndex);
  }

  /** A number as a template literal renders it. */
  function IntText(i: int): string {
    if i < 0 then "-" + NatToString(-i) else NatToString(i)
  }

  /** The template `${dbIndex}-${tableName}`: it reads back as the index and the name. */
  function TableId(dbIndex: int, name: string): (id: string)
    ensures ParseTableId(id) == Some((dbIndex, name))
  {
    IdReadsBack(dbIndex, name);
    IntText(dbIndex) + "-" + name
  }

  /** Reads an id back into the index and the name it was built from. */
  function ParseTableId(id: string): Option<(int, string)> {
    if id != [] && id[0] == '-' then
      match ParseUnsigned(id[1..])
      case Some((v, name)) => Some((-v, name))
      case None => None
    else ParseUnsigned(id)
  }

  /** Digits, a dash, then the name. */
  function ParseUnsigned(s: string): Option<(int, string)> {
    var d := LeadingDigits(s);
    if d >= 1 && d < |s| && s[d] == '-' then Some((DigitsValue(s[..d]), s[d + 1..])) else None
  }

  lemma LeadingDigitsOf(digits: string, rest: string)
    requires forall k :: 0 <= k < |digits| ==> IsDigit(digits[k])
    requires rest == [] || !IsDigit(rest[0])
    ensures LeadingDigits(digits + rest) == |digits|
  {
    var s := digits + rest;
    assert forall i :: 0 <= i < |digits| ==> IsDigit(s[i]);
    assert |digits| < |s| ==> !IsDigit(s[|digits|]);
  }

  /** Digits followed by a dash and a name read back as the digits' value and the name. */
  lemma DigitsThenDash(digits: string, name: string)
    requires forall k :: 0 <= k < |digits| ==> IsDigit(digits[k])
    requires digits != []
    ensures ParseUnsigned(digits + "-" + name) == Some((DigitsValue(digits), name))
  {
    Regroup3(digits, "-", name);
    LeadingDigitsOf(digits, "-" + name);
    PartsAround(digits, "-", name);
  }

  lemma Regroup3(a: string, b: string, c: string)
    ensures a + b + c == a + (b + c)
  {
  }

  /** The pieces of `a + sep + b` around a one-character separator. */
  lemma PartsAround(a: string, sep: string, b: string)
    requires |sep| == 1
    ensures var s := a + sep + b;
      |a| < |s| && s[|a|] == sep[0] && s[..|a|] == a && s[|a| + 1..] == b
  {
    var s := a + sep + b;
    assert s[..|a|] == a;
    assert s[|a| + 1..] == b;
  }

  /** The index's text, a dash and the name read back as the index and the name. */
  lemma IdReadsBack(dbIndex: int, name: string)
    ensures ParseTableId(IntText(dbIndex) + "-" + name) == Some((dbIndex, name))
  {
    var n: nat := if dbIndex < 0 then -dbIndex else dbIndex;
    var digits := NatToString(n);
    NatToStringValue(n);
    DigitsThenDash(digits, name);
    var tail := digits + "-" + name;
    Regroup4(digits, "-", name, "");
    FirstOfConcat(digits, "-" + name + "");
    SignedTail(tail, n, name);
    Regroup4("-", digits, "-", name);
  }

  lemma FirstOfConcat(a: string, b: string)
    requires a != []
    ensures (a + b)[0] == a[0]
  {
  }

  /** A signed id reads its unsigned tail and negates it after a minus sign. */
  lemma SignedTail(tail: string, v: int, name: string)
    requires tail != [] && tail[0] != '-' && ParseUnsigned(tail) == Some((v, name))
    ensures ParseTableId(tail) == Some((v, name))
    ensures ParseTableId("-" + tail) == Some((-v, name))
  {
    assert ("-" + tail)[1..] == tail;
  }

  lemma Regroup4(a: string, b: string, c: string, d: string)
    ensures a + b + c + d == a + (b + c + d)
  {
  }

  /** Distinct (index, name) pairs get distinct ids. */
  lemma TableIdInjective(i: int, a: string, j: int, b: string)
    requires TableId(i, a) == TableId(j, b)
    ensures i == j && a == b
  {
  }

  /** `colResult[0]?.values || []`, each row read as `{ name: col[1], type: col[2] }`. */
  function ColumnsOf(results: seq<ResultSet>): (cs: seq<Column>)
    ensures |results| == 0 ==> cs == []
    ensures |results| > 0 ==> |cs| == |results[0].values| && forall k :: 0 <= k < |cs| ==>
      cs[k] == Column(CellText(results[0].values[k], 1), CellText(results[0].values[k], 2))
  {
    if |results| == 0 then [] else
      var rows := results[0].values;
      seq(|rows|, k requires 0 <= k < |rows| => Column(CellText(rows[k], 1), CellText(rows[k], 2)))
  }

  /**
   * A table is attributed as the refresh promises: its id carries its name
   * and the least index of an instance that declares it, or -1 with the
   * database shown as "Unknown" when no instance does; `names[dbIndex]`
   * past the end of `names` is undefined.
   */
  predicate Attributed(eng: Engine, instances: seq<Db>, names: seq<string>, t: Table) {
    var parsed := ParseTableId(t.id);
    && parsed.Some?
    && parsed.value.1 == t.name
    && var i := parsed.value.0;
    && -1 <= i < |instances|
    && (forall j :: 0 <= j < |instances| && (i == -1 || j < i) ==> !Declares(eng, instances[j], t.name))
    && (i == -1 ==> t.database == Some("Unknown"))
    && (i >= 0 ==> Declares(eng, instances[i], t.name)
                   && t.database == (if i < |names| then Some(names[i]) else None))
  }

  /**
   * `t` is the description of the catalog entry `row` in `db`: its name, its
   * columns as `PRAGMA table_info` lists them, collapsed, and attributed.
   */
  predicate Describes(eng: Engine, db: Db, instances: seq<Db>, names: seq<string>, row: seq<Value>, t: Table) {
    && t.name == CellText(row, 0)
    && eng.exec(db, ColumnsSql(t.name)).Executed?
    && t.columns == ColumnsOf(eng.exec(db, ColumnsSql(t.name)).results)
    && t.expanded == Some(false)
    && Attributed(eng, instances, names, t)
  }

  /** One catalog entry: its columns, then its provenance. */
  function DescribeTable(eng: Engine, db: Db, instances: seq<Db>, names: seq<string>, name: string): (r: Result<Table>)
    ensures r.Success? ==> r.value.name == name && r.value.expanded == Some(false)
    ensures r.Success? ==>
      && eng.exec(db, ColumnsSql(name)).Executed?
      && r.value.columns == ColumnsOf(eng.exec(db, ColumnsSql(name)).results)
    ensures r.Success? ==> Attributed(eng, instances, names, r.value)
  {
    match eng.exec(db, ColumnsSql(name))
    case ExecFailed(m) => Failure(m)
    case Executed(_, colResult) =>
      match Provenance(eng, instances, name, 0)
      case Failure(m) => Failure(m)
      case Success(dbIndex) =>
        Success(Table(
          name,
          TableId(dbIndex, name),
          ColumnsOf(colResult),
          Some(false),
          if dbIndex >= 0 then (if dbIndex < |names| then Some(names[dbIndex]) else None) else Some("Unknown")))
  }

  /** Every entry of the catalog, in order. */
  function DescribeAll(eng: Engine, db: Db, instances: seq<Db>, names: seq<string>, rows: seq<seq<Value>>): (r: Result<seq<Table>>)
    ensures r.Success? ==> |r.value| == |rows|
    decreases |rows|
  {
    if rows == [] then Success([])
    else
      match DescribeTable(eng, db, instances, names, CellText(rows[0], 0))
      case Failure(m) => Failure(m)
      case Success(t) =>
        match DescribeAll(eng, db, instances, names, rows[1..])
        case Failure(m) => Failure(m)
        case Success(ts) => Success([t] + ts)
  }

  /** A successful description of a non-empty catalog is its first entry's table followed by the rest's. */
  lemma DescribeAllCons(eng: Engine, db: Db, instances: seq<Db>, names: seq<string>, rows: seq<seq<Value>>)
    requires rows != [] && DescribeAll(eng, db, instances, names, rows).Success?
    ensures DescribeTable(eng, db, instances, names, CellText(rows[0], 0)).Success?
    ensures DescribeAll(eng, db, instances, names, rows[1..]).Success?
    ensures DescribeAll(eng, db, instances, names, rows).value
      == [DescribeTable(eng, db, instances, names, CellText(rows[0], 0)).value] + DescribeAll(eng, db, instances, names, rows[1..]).value
  {
  }

  /** Each table of the snapshot describes the catalog entry at its own position. */
  lemma {:induction false} DescribeAllSound(eng: Engine, db: Db, instances: seq<Db>, names: seq<string>, rows: seq<seq<Value>>)
    requires DescribeAll(eng, db, instances, names, rows).Success?
    ensures var ts := DescribeAll(eng, db, instances, names, rows).value;
      forall k :: 0 <= k < |rows| ==> Describes(eng, db, instances, names, rows[k], ts[k])
    decreases |rows|
  {
    if rows != [] {
      DescribeAllCons(eng, db, instances, names, rows);
      DescribeAllSound(eng, db, instances, names, rows[1..]);
      var ts := DescribeAll(eng, db, instances, names, rows).value;
      var rest := DescribeAll(eng, db, instances, names, rows[1..]).value;
      forall k | 0 <= k < |rows|
        ensures Describes(eng, db, instances, names, rows[k], ts[k])
      {
        if k > 0 {
          assert rows[k] == rows[1..][k - 1] && ts[k] == rest[k - 1];
        }
      }
    }
  }

  /** Descriptions already gathered, followed by the outcome for the rest. */
  function After(done: seq<Table>, rest: Result<seq<Table>>): Result<seq<Table>> {
    match rest
    case Failure(m) => Failure(m)
    case Success(ts) => Success(done + ts)
  }

  lemma AfterAfter(first: seq<Table>, second: seq<Table>, rest: Result<seq<Table>>)
    ensures After(first, After(second, rest)) == After(first + second, rest)
  {
    if rest.Success? {
      assert first + (second + rest.value) == (first + second) + rest.value;
    }
  }

  /** The rows of the catalog answer, or none when the catalog query returned no result set. */
  function CatalogRows(results: seq<ResultSet>): seq<seq<Value>> {
    if |results| == 0 then [] else results[0].values
  }

  /**
   * `refreshSchema`: the tables the catalog of the merged database lists,
   * each described and attributed; a statement that throws aborts it.
   */
  function SchemaOf(eng: Engine, db: Db, instances: seq<Db>, names: seq<string>): (r: Result<seq<Table>>)
    ensures r.Success? ==> eng.exec(db, TableNames).Executed?
    ensures r.Success? ==> |r.value| == |CatalogRows(eng.exec(db, TableNames).results)|
  {
    match eng.exec(db, TableNames)
    case ExecFailed(m) => Failure(m)
    case Executed(_, catalog) =>
      if |catalog| == 0 then Success([])
      else DescribeAll(eng, db, instances, names, catalog[0].values)
  }

  /**
   * The snapshot lists the catalog's tables in catalog order, each collapsed
   * and attributed to the first instance that declares it.
   */
  lemma SchemaSound(eng: Engine, db: Db, instances: seq<Db>, names: seq<string>)
    requires SchemaOf(eng, db, instances, names).Success?
    ensures var ts := SchemaOf(eng, db, instances, names).value;
      var rows := CatalogRows(eng.exec(db, TableNames).results);
      forall k :: 0 <= k < |rows| ==> Describes(eng, db, instances, names, rows[k], ts[k])
  {
    var catalog := eng.exec(db, TableNames).results;
    if |catalog| > 0 {
      DescribeAllSound(eng, db, instances, names, catalog[0].values);
    }
  }

  /** Tables whose names differ have different ids. */
  lemma SchemaIdsDistinct(eng: Engine, db: Db, instances: seq<Db>, names: seq<string>)
    requires SchemaOf(eng, db, instances, names).Success?
    ensures var ts := SchemaOf(eng, db, instances, names).value;
      forall a, b :: 0 <= a < |ts| && 0 <= b < |ts| && ts[a].name != ts[b].name ==> ts[a].id != ts[b].id
  {
    var ts := SchemaOf(eng, db, instances, names).value;
    var rows := CatalogRows(eng.exec(db, TableNames).results);
    SchemaSound(eng, db, instances, names);
    forall a, b | 0 <= a < |ts| && 0 <= b < |ts| && ts[a].name != ts[b].name
      ensures ts[a].id != ts[b].id
    {
      assert Describes(eng, db, instances, names, rows[a], ts[a]);
      assert Describes(eng, db, instances, names, rows[b], ts[b]);
    }
  }

  /** One catalog entry described: its columns read, then its provenance resolved. */
  method DescribeOne(eng: Engine, db: Db, instances: seq<Db>, names: seq<string>, name: string) returns (r: Result<Table>)
    ensures r == DescribeTable(eng, db, instances, names, name)
  {
    var colResult := eng.exec(db, ColumnsSql(name));
    if colResult.ExecFailed? {
      return Failure(colResult.message);
    }
    var dbIndex := ResolveProvenance(eng, instances, name);
    if dbIndex.Failure? {
      return Failure(dbIndex.error);
    }
    var database := if dbIndex.value >= 0 then (if dbIndex.value < |names| then Some(names[dbIndex.value]) else None) else Some("Unknown");
    return Success(Table(name, TableId(dbIndex.value, name), ColumnsOf(colResult.results), Some(false), database));
  }

  /** The catalog from entry `k` on: entry `k` described, then the rest. */
  lemma DescribeFrom(eng: Engine, db: Db, instances: seq<Db>, names: seq<string>, rows: seq<seq<Value>>, k: nat)
    requires k < |rows|
    ensures var first := DescribeTable(eng, db, instances, names, CellText(rows[k], 0));
      DescribeAll(eng, db, instances, names, rows[k..])
        == if first.Failure? then Failure(first.error) else After([first.value], DescribeAll(eng, db, instances, names, rows[k + 1..]))
  {
    assert rows[k..][0] == rows[k];
    assert rows[k..][1..] == rows[k + 1..];
  }

  method RefreshSchema(eng: Engine, db: Db, instances: seq<Db>, names: seq<string>) returns (r: Result<seq<Table>>)
    ensures r == SchemaOf(eng, db, instances, names)
  {
    var catalog := eng.exec(db, TableNames);
    if catalog.ExecFailed? {
      return Failure(catalog.message);
    }
    if |catalog.results| == 0 {
      return Success([]);
    }
    var rows := catalog.results[0].values;
    var tables: seq<Table> := [];
    ghost var all := DescribeAll(eng, db, instances, names, rows);
    if all.Success? {
      assert [] + all.value == all.value;
    }
    assert rows[0..] == rows;
    var k := 0;
    while k < |rows|
      invariant 0 <= k <= |rows|
      invariant all == After(tables, DescribeAll(eng, db, instances, names, rows[k..]))
    {
      DescribeFrom(eng, db, instances, names, rows, k);
      var t := DescribeOne(eng, db, instances, names, CellText(rows[k], 0));
      if t.Failure? {
        return Failure(t.error);
      }
      AfterAfter(tables, [t.value], DescribeAll(eng, db, instances, names, rows[k + 1..]));
      tables := tables + [t.value];
      k := k + 1;
    }
    assert rows[k..] == [] && tables + [] == tables;
    return Success(tables);
  }
}
