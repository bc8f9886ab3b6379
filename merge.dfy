/**
 * Merging every uploaded database into one fresh in-memory database
 * (`combineDatabases` in src/App.tsx): for each source, in order, each table
 * definition of its catalog is replayed on the target, and each of the
 * table's rows is copied with an `INSERT OR IGNORE`. A failing insert is
 * caught and skipped; any other failing statement aborts the whole merge.
 */
module Merge {
  import opened Wrappers
  import opened Text
  import opened Types
  import opened Engine
  import Cleanup

  /** The characters of the regular-expression class `\w`. */
  predicate IsWordChar(c: char) {
    ('a' <= c <= 'z') || ('A' <= c <= 'Z') || IsDigit(c) || c == '_'
  }

  /** The length of the run of `\w` characters that starts `s`. */
  function WordRun(s: string): (n: nat)
    ensures n <= |s|
    ensures forall i :: 0 <= i < n ==> IsWordChar(s[i])
    ensures n < |s| ==> !IsWordChar(s[n])
  {
    if s != [] && IsWordChar(s[0]) then 1 + WordRun(s[1..]) else 0
  }

  const CreateTable := "CREATE TABLE "

  /** `/CREATE TABLE (\w+)/i` matches at the start of `t`. */
  predicate StartsDeclaration(t: string) {
    Cleanup.Matches(t, CreateTable, true) && WordRun(t[|CreateTable|..]) > 0
  }

  /**
   * `createTableSql.match(/CREATE TABLE (\w+)/i)?.[1]`: the run of word
   * characters right after the leftmost case-insensitive "CREATE TABLE "
   * that is followed by one; `None` when there is none.
   */
  function ExtractTableName(sql: string): (r: Option<string>)
    ensures r.Some? ==> r.value != [] && forall k :: 0 <= k < |r.value| ==> IsWordChar(r.value[k])
  {
    match Leftmost(sql, 0, StartsDeclaration)
    case None => None
    case Some(i) =>
      DeclarationAt(sql, i);
      Some(NameAt(sql, i + |CreateTable|))
  }

  /** The run of word characters from `start` on: it ends at the end of `sql` or before a non-word character. */
  function NameAt(sql: string, start: nat): (name: string)
    requires start <= |sql|
    ensures |name| == WordRun(sql[start..]) && start + |name| <= |sql|
    ensures name == sql[start..start + |name|]
    ensures start + |name| < |sql| ==> !IsWordChar(sql[start + |name|])
  {
    var n := WordRun(sql[start..]);
    assert start + n < |sql| ==> sql[start..][n] == sql[start + n];
    sql[start..start + n]
  }

  /** The name is found exactly when the pattern matches somewhere. */
  lemma ExtractTableNameNone(sql: string)
    ensures ExtractTableName(sql).None? <==> forall j :: 0 <= j <= |sql| ==> !StartsDeclaration(sql[j..])
  {
    var first := Leftmost(sql, 0, StartsDeclaration);
    if first.Some? {
      assert StartsDeclaration(sql[first.value..]);
    }
  }

  /**
   * A name found is the non-empty, longest run of word characters right
   * after the leftmost match of "CREATE TABLE ".
   */
  lemma ExtractTableNameFound(sql: string)
    requires ExtractTableName(sql).Some?
    ensures Leftmost(sql, 0, StartsDeclaration).Some?
    ensures RunAt(sql, Leftmost(sql, 0, StartsDeclaration).value + |CreateTable|, ExtractTableName(sql).value)
  {
    var i := Leftmost(sql, 0, StartsDeclaration).value;
    var start := ExtractAt(sql, i);
    NameFound(sql, start, ExtractTableName(sql).value);
  }

  /** Where the leftmost match is at `i`, the name is the run of word characters after "CREATE TABLE ". */
  lemma ExtractAt(sql: string, i: nat) returns (start: nat)
    requires Leftmost(sql, 0, StartsDeclaration) == Some(i)
    ensures start == i + |CreateTable| && start <= |sql| && WordRun(sql[start..]) > 0
    ensures ExtractTableName(sql) == Some(NameAt(sql, start))
  {
    DeclarationAt(sql, i);
    start := i + |CreateTable|;
  }

  /** `name` is a non-empty run of word characters at `start` in `sql`, and the longest one there. */
  predicate RunAt(sql: string, start: nat, name: string) {
    && name != []
    && start + |name| <= |sql|
    && sql[start..start + |name|] == name
    && (start + |name| == |sql| || !IsWordChar(sql[start + |name|]))
  }

  /** A run that starts with a word character is a non-empty, maximal run. */
  lemma NameFound(sql: string, start: nat, name: string)
    requires start <= |sql| && WordRun(sql[start..]) > 0 && name == NameAt(sql, start)
    ensures RunAt(sql, start, name)
  {
  }

  /** Where the pattern matches, "CREATE TABLE " fits and a word character follows it. */
  lemma DeclarationAt(sql: string, i: nat)
    requires i <= |sql| && StartsDeclaration(sql[i..])
    ensures i + |CreateTable| <= |sql| && WordRun(sql[i + |CreateTable|..]) > 0
  {
    Cleanup.SuffixOfSuffix(sql, i, |CreateTable|);
  }

  lemma WordRunOf(name: string, rest: string)
    requires forall k :: 0 <= k < |name| ==> IsWordChar(name[k])
    requires rest == [] || !IsWordChar(rest[0])
    ensures WordRun(name + rest) == |name|
  {
    if name != [] {
      assert (name + rest)[1..] == name[1..] + rest;
      WordRunOf(name[1..], rest);
    }
  }

  /**
   * The name in a definition written the way SQLite records a plain
   * `CREATE TABLE` statement is the one the pattern recovers.
   */
  lemma ExtractDeclaredName(name: string, rest: string)
    requires name != [] && forall k :: 0 <= k < |name| ==> IsWordChar(name[k])
    requires rest == [] || !IsWordChar(rest[0])
    ensures ExtractTableName(CreateTable + name + rest) == Some(name)
  {
    var sql := CreateTable + name + rest;
    assert sql[|CreateTable|..] == name + rest;
    WordRunOf(name, rest);
    assert sql[0..] == sql;
    assert StartsDeclaration(sql[0..]);
  }

  /** `columns.map(() => '?').join(',')`. */
  function Placeholders(n: nat): string {
    Join(seq(n, _ => "?"), ",")
  }

  /** The number of `?` parameters in a statement's text. */
  function Marks(s: string): nat {
    if s == [] then 0 else (if s[0] == '?' then 1 else 0) + Marks(s[1..])
  }

  lemma {:induction false} NoMarks(s: string)
    requires '?' !in s
    ensures Marks(s) == 0
  {
    if s != [] {
      NoMarks(s[1..]);
    }
  }

  lemma {:induction false} MarksAppend(a: string, b: string)
    ensures Marks(a + b) == Marks(a) + Marks(b)
  {
    if a == [] {
      assert a + b == b;
    } else {
      assert (a + b)[1..] == a[1..] + b;
      MarksAppend(a[1..], b);
    }
  }

  /**
   * The statement each source row is copied with. When neither the table
   * nor a column name holds a `?`, it has one `?` parameter per column.
   */
  function InsertStatement(table: string, columns: seq<string>): (r: string)
    ensures ('?' !in table && forall k :: 0 <= k < |columns| ==> '?' !in columns[k]) ==> Marks(r) == |columns|
  {
    var listed := Join(columns, ",");
    var marks := Placeholders(|columns|);
    if '?' !in table && forall k :: 0 <= k < |columns| ==> '?' !in columns[k] then
      JoinAvoids(columns, ",", '?');
      PlaceholdersCount(|columns|);
      MarksOnlyInPlaceholders("INSERT OR IGNORE INTO ", table, " (", listed, ") VALUES (", marks, ")");
      "INSERT OR IGNORE INTO " + table + " (" + listed + ") VALUES (" + marks + ")"
    else "INSERT OR IGNORE INTO " + table + " (" + listed + ") VALUES (" + marks + ")"
  }

  /** Text free of `?` around the placeholders adds no `?` of its own. */
  lemma MarksOnlyInPlaceholders(head: string, table: string, open: string, listed: string, values: string, marks: string, close: string)
    requires '?' !in head && '?' !in table && '?' !in open && '?' !in listed && '?' !in values && '?' !in close
    ensures Marks(head + table + open + listed + values + marks + close) == Marks(marks)
  {
    var s1 := head + table;
    var s2 := s1 + open;
    var s3 := s2 + listed;
    var s4 := s3 + values;
    var s5 := s4 + marks;
    NoMarks(head);
    NoMarks(table);
    NoMarks(open);
    NoMarks(listed);
    NoMarks(values);
    NoMarks(close);
    MarksAppend(head, table);
    MarksAppend(s1, open);
    MarksAppend(s2, listed);
    MarksAppend(s3, values);
    MarksAppend(s4, marks);
    MarksAppend(s5, close);
  }

  /** `n` placeholders hold `n` question marks. */
  lemma {:induction false} PlaceholdersCount(n: nat)
    ensures Marks(Placeholders(n)) == n
  {
    if n >= 2 {
      var marks: seq<string> := seq(n, _ => "?");
      JoinCons(marks, ",");
      assert marks[1..] == seq(n - 1, _ => "?");
      PlaceholdersCount(n - 1);
      NoMarks(",");
      MarksAppend("?", ",");
      MarksAppend("?" + ",", Placeholders(n - 1));
    } else if n == 1 {
      assert Placeholders(1) == "?";
      assert "?"[1..] == [];
    }
  }

  /**
   * The insert statement binds one parameter per column: its placeholder
   * list splits into exactly as many `?` as there are columns, and its
   * column list splits back into the columns when no name holds a comma.
   */
  lemma InsertStatementArity(columns: seq<string>)
    requires |columns| >= 1
    ensures Split(Placeholders(|columns|), ",") == seq(|columns|, _ => "?")
    ensures (forall k :: 0 <= k < |columns| ==> ',' !in columns[k]) ==>
      Split(Join(columns, ","), ",") == columns
  {
    var marks: seq<string> := seq(|columns|, _ => "?");
    assert forall k :: 0 <= k < |marks| ==> marks[k] == "?";
    SplitJoin(marks, ",");
    if forall k :: 0 <= k < |columns| ==> ',' !in columns[k] {
      SplitJoin(columns, ",");
    }
  }

  /**
   * The row-copy loop: each row is run through the insert statement; a row
   * whose insert throws is skipped and does not count as inserted.
   */
  function CopyRows(eng: Engine, target: Db, insertSql: string, rows: seq<seq<Value>>, inserted: nat): (r: (Db, nat))
    ensures inserted <= r.1 <= inserted + |rows|
    decreases |rows|
  {
    if rows == [] then (target, inserted)
    else
      match eng.run(target, insertSql, rows[0])
      case RunFailed(_) => CopyRows(eng, target, insertSql, rows[1..], inserted)
      case Ran(db) => CopyRows(eng, db, insertSql, rows[1..], inserted + 1)
  }

  /** When every insert throws, the target is left as it was and nothing counts as inserted. */
  lemma {:induction false} CopyRowsAllRejected(eng: Engine, target: Db, insertSql: string, rows: seq<seq<Value>>, inserted: nat)
    requires forall k :: 0 <= k < |rows| ==> eng.run(target, insertSql, rows[k]).RunFailed?
    ensures CopyRows(eng, target, insertSql, rows, inserted) == (target, inserted)
    decreases |rows|
  {
    if rows != [] {
      assert forall k :: 0 <= k < |rows[1..]| ==> rows[1..][k] == rows[k + 1];
      CopyRowsAllRejected(eng, target, insertSql, rows[1..], inserted);
    }
  }

  /** One row: inserted and counted when its insert runs, skipped with the target unchanged when it throws. */
  lemma CopyRowsOne(eng: Engine, target: Db, insertSql: string, row: seq<Value>, inserted: nat)
    ensures CopyRows(eng, target, insertSql, [row], inserted) ==
      match eng.run(target, insertSql, row)
      case RunFailed(_) => (target, inserted)
      case Ran(db) => (db, inserted + 1)
  {
    assert [row][1..] == [];
  }

  /**
   * Copying `first + second` is copying `first`, then `second` on the database
   * and the count it left: a rejected row never stops the rows after it.
   */
  lemma {:induction false} CopyRowsAppend(eng: Engine, target: Db, insertSql: string, first: seq<seq<Value>>, second: seq<seq<Value>>, inserted: nat)
    ensures var mid := CopyRows(eng, target, insertSql, first, inserted);
      CopyRows(eng, target, insertSql, first + second, inserted) == CopyRows(eng, mid.0, insertSql, second, mid.1)
    decreases |first|
  {
    if first == [] {
      assert first + second == second;
    } else {
      assert (first + second)[0] == first[0];
      assert (first + second)[1..] == first[1..] + second;
      match eng.run(target, insertSql, first[0])
      case RunFailed(_) =>
        CopyRowsAppend(eng, target, insertSql, first[1..], second, inserted);
      case Ran(db) =>
        CopyRowsAppend(eng, db, insertSql, first[1..], second, inserted + 1);
    }
  }

  method CopyAll(eng: Engine, target: Db, insertSql: string, rows: seq<seq<Value>>) returns (db: Db, inserted: nat)
    ensures (db, inserted) == CopyRows(eng, target, insertSql, rows, 0)
    ensures inserted <= |rows|
  {
    db, inserted := target, 0;
    var k := 0;
    while k < |rows|
      invariant 0 <= k <= |rows|
      invariant CopyRows(eng, target, insertSql, rows, 0) == CopyRows(eng, db, insertSql, rows[k..], inserted)
    {
      assert rows[k..][1..] == rows[k + 1..];
      var step := eng.run(db, insertSql, rows[k]);
      if step.Ran? {
        db, inserted := step.db, inserted + 1;
      }
      k := k + 1;
    }
    assert rows[k..] == [];
  }

  /** What the merge records for a table whose rows it copied. */
  datatype Copied = Copied(table: string, inserted: nat, sourceRows: nat)

  /** No table counts more inserted rows than its source held. */
  predicate Bounded(log: seq<Copied>) {
    forall k :: 0 <= k < |log| ==> log[k].inserted <= log[k].sourceRows
  }

  function SelectAll(table: string): string {
    "SELECT * FROM " + table
  }

  /**
   * One definition of a source's catalog: replay it on the target, then, when
   * the pattern finds a name and the source's table has rows, copy them and
   * read the copied table back.
   */
  function MergeTable(eng: Engine, src: Db, target: Db, createSql: string): (r: Result<(Db, seq<Copied>)>)
    ensures r.Success? ==> |r.value.1| <= 1 && Bounded(r.value.1)
    ensures r.Success? && |r.value.1| == 1 ==> ExtractTableName(createSql) == Some(r.value.1[0].table)
    ensures eng.exec(target, createSql).ExecFailed? ==> r.Failure?
    ensures eng.exec(target, createSql).Executed? && ExtractTableName(createSql).None? ==>
      r == Success((eng.exec(target, createSql).db, []))
    ensures var created := eng.exec(target, createSql); var name := ExtractTableName(createSql);
      created.Executed? && name.Some? ==>
        var data := eng.exec(src, SelectAll(name.value));
        && (data.ExecFailed? ==> r == Failure(data.message))
        && (data.Executed? && (|data.results| == 0 || |data.results[0].values| == 0) ==> r == Success((created.db, [])))
        && (data.Executed? && |data.results| > 0 && |data.results[0].values| > 0 ==>
          var values := data.results[0].values;
          var copied := CopyRows(eng, created.db, InsertStatement(name.value, data.results[0].columns), values, 0);
          var back := eng.exec(copied.0, SelectAll(name.value));
          r == if back.ExecFailed? then Failure(back.message) else Success((back.db, [Copied(name.value, copied.1, |values|)])))
  {
    match eng.exec(target, createSql)
    case ExecFailed(m) => Failure(m)
    case Executed(created, _) =>
      match ExtractTableName(createSql)
      case None => Success((created, []))
      case Some(name) =>
        match eng.exec(src, SelectAll(name))
        case ExecFailed(m) => Failure(m)
        case Executed(_, data) =>
          if |data| == 0 || |data[0].values| == 0 then Success((created, []))
          else
            var values := data[0].values;
            var copied := CopyRows(eng, created, InsertStatement(name, data[0].columns), values, 0);
            match eng.exec(copied.0, SelectAll(name))
            case ExecFailed(m) => Failure(m)
            case Executed(after, _) => Success((after, [Copied(name, copied.1, |values|)]))
  }

  /** The definitions of one source, in catalog order, appending to `log`. */
  function MergeTables(eng: Engine, src: Db, target: Db, defs: seq<seq<Value>>, log: seq<Copied>): (r: Result<(Db, seq<Copied>)>)
    ensures r.Success? ==> log <= r.value.1 && |r.value.1| <= |log| + |defs|
    ensures r.Success? && Bounded(log) ==> Bounded(r.value.1)
    decreases |defs|
  {
    if defs == [] then Success((target, log))
    else
      match MergeTable(eng, src, target, CellText(defs[0], 0))
      case Failure(m) => Failure(m)
      case Success((next, copied)) => MergeTables(eng, src, next, defs[1..], log + copied)
  }

  /**
   * A definition that fails aborts the merge of its source: once the
   * definitions before it have gone through, the whole list fails with its
   * error.
   */
  lemma {:induction false} MergeTablesAbort(eng: Engine, src: Db, target: Db, defs: seq<seq<Value>>, log: seq<Copied>, k: nat)
    requires k < |defs| && MergeTables(eng, src, target, defs[..k], log).Success?
    requires MergeTable(eng, src, MergeTables(eng, src, target, defs[..k], log).value.0, CellText(defs[k], 0)).Failure?
    ensures MergeTables(eng, src, target, defs, log)
      == Failure(MergeTable(eng, src, MergeTables(eng, src, target, defs[..k], log).value.0, CellText(defs[k], 0)).error)
    decreases k
  {
    assert defs[0] == defs[..k + 1][0];
    if k > 0 {
      assert defs[..k][0] == defs[0] && defs[..k][1..] == defs[1..][..k - 1];
      match MergeTable(eng, src, target, CellText(defs[0], 0))
      case Failure(m) =>
      case Success((next, copied)) =>
        assert defs[1..][k - 1] == defs[k];
        MergeTablesAbort(eng, src, next, defs[1..], log + copied, k - 1);
    } else {
      assert defs[..0] == [];
    }
  }

  /** One source: read its catalog, then merge its definitions. */
  function MergeSource(eng: Engine, target: Db, src: Db, log: seq<Copied>): (r: Result<(Db, seq<Copied>)>)
    ensures r.Success? ==> log <= r.value.1
    ensures r.Success? && Bounded(log) ==> Bounded(r.value.1)
  {
    match eng.exec(src, TablesWithSql)
    case ExecFailed(m) => Failure(m)
    case Executed(_, catalog) =>
      if |catalog| == 0 then Success((target, log))
      else MergeTables(eng, src, target, catalog[0].values, log)
  }

  /** The sources in order; the first failure aborts the rest. */
  function MergeSources(eng: Engine, target: Db, srcs: seq<Db>, log: seq<Copied>): (r: Result<(Db, seq<Copied>)>)
    ensures r.Success? ==> log <= r.value.1
    ensures r.Success? && Bounded(log) ==> Bounded(r.value.1)
    decreases |srcs|
  {
    if srcs == [] then Success((target, log))
    else
      match MergeSource(eng, target, srcs[0], log)
      case Failure(m) => Failure(m)
      case Success((next, log')) => MergeSources(eng, next, srcs[1..], log')
  }

  /** `combineDatabases`: everything merged into a fresh empty database. */
  function Merged(eng: Engine, srcs: seq<Db>): (r: Result<(Db, seq<Copied>)>)
    ensures r.Success? ==> Bounded(r.value.1)
    ensures srcs == [] ==> r == Success((EmptyDb, []))
  {
    MergeSources(eng, EmptyDb, srcs, [])
  }

  /**
   * A `CREATE TABLE` that fails aborts the whole merge: when the sources
   * before source `i` and the definitions before its `k`-th have gone
   * through, and replaying that definition throws, `combineDatabases` fails
   * with that error.
   */
  lemma MergedAborts(eng: Engine, srcs: seq<Db>, i: nat, k: nat)
    requires i < |srcs| && MergeSources(eng, EmptyDb, srcs[..i], []).Success?
    requires eng.exec(srcs[i], TablesWithSql).Executed? && |eng.exec(srcs[i], TablesWithSql).results| > 0
    requires var defs := eng.exec(srcs[i], TablesWithSql).results[0].values;
      var before := MergeSources(eng, EmptyDb, srcs[..i], []).value;
      && k < |defs|
      && MergeTables(eng, srcs[i], before.0, defs[..k], before.1).Success?
      && eng.exec(MergeTables(eng, srcs[i], before.0, defs[..k], before.1).value.0, CellText(defs[k], 0)).ExecFailed?
    ensures var defs := eng.exec(srcs[i], TablesWithSql).results[0].values;
      var before := MergeSources(eng, EmptyDb, srcs[..i], []).value;
      var reached := MergeTables(eng, srcs[i], before.0, defs[..k], before.1).value.0;
      Merged(eng, srcs) == Failure(eng.exec(reached, CellText(defs[k], 0)).message)
  {
    var defs := eng.exec(srcs[i], TablesWithSql).results[0].values;
    var before := MergeSources(eng, EmptyDb, srcs[..i], []).value;
    MergeTablesAbort(eng, srcs[i], before.0, defs, before.1, k);
    assert srcs == srcs[..i] + srcs[i..];
    MergeSourcesAppend(eng, EmptyDb, srcs[..i], srcs[i..], []);
    assert srcs[i..][0] == srcs[i];
  }

  /** Continues a merge that has got this far with the sources still to come. */
  function ThenMerge(eng: Engine, sofar: Result<(Db, seq<Copied>)>, rest: seq<Db>): Result<(Db, seq<Copied>)> {
    match sofar
    case Failure(m) => Failure(m)
    case Success((db, log)) => MergeSources(eng, db, rest, log)
  }

  /**
   * The sources are merged strictly one after another: merging `first + second`
   * is merging `first` and then, only if that succeeded, `second` into its result.
   */
  lemma {:induction false} MergeSourcesAppend(eng: Engine, target: Db, first: seq<Db>, second: seq<Db>, log: seq<Copied>)
    ensures MergeSources(eng, target, first + second, log) == ThenMerge(eng, MergeSources(eng, target, first, log), second)
    decreases |first|
  {
    if first == [] {
      assert first + second == second;
    } else {
      assert (first + second)[0] == first[0];
      assert (first + second)[1..] == first[1..] + second;
      match MergeSource(eng, target, first[0], log)
      case Failure(m) =>
      case Success((next, log')) =>
        MergeSourcesAppend(eng, next, first[1..], second, log');
    }
  }

  /** The body of the loop over a source's catalog: one definition. */
  method MergeTableInto(eng: Engine, src: Db, target: Db, createSql: string) returns (r: Result<(Db, seq<Copied>)>)
    ensures r == MergeTable(eng, src, target, createSql)
  {
    var created := eng.exec(target, createSql);
    if created.ExecFailed? {
      return Failure(created.message);
    }
    var name := ExtractTableName(createSql);
    if name.None? {
      return Success((created.db, []));
    }
    var data := eng.exec(src, SelectAll(name.value));
    if data.ExecFailed? {
      return Failure(data.message);
    }
    if |data.results| == 0 || |data.results[0].values| == 0 {
      return Success((created.db, []));
    }
    var values := data.results[0].values;
    var db, inserted := CopyAll(eng, created.db, InsertStatement(name.value, data.results[0].columns), values);
    var after := eng.exec(db, SelectAll(name.value));
    if after.ExecFailed? {
      return Failure(after.message);
    }
    return Success((after.db, [Copied(name.value, inserted, |values|)]));
  }

  method MergeSourceInto(eng: Engine, target: Db, src: Db, log: seq<Copied>) returns (r: Result<(Db, seq<Copied>)>)
    ensures r == MergeSource(eng, target, src, log)
  {
    var catalog := eng.exec(src, TablesWithSql);
    if catalog.ExecFailed? {
      return Failure(catalog.message);
    }
    if |catalog.results| == 0 {
      return Success((target, log));
    }
    var defs := catalog.results[0].values;
    var db, copiedLog := target, log;
    var k := 0;
    while k < |defs|
      invariant 0 <= k <= |defs|
      invariant MergeTables(eng, src, target, defs, log) == MergeTables(eng, src, db, defs[k..], copiedLog)
    {
      assert defs[k..][1..] == defs[k + 1..];
      var merged := MergeTableInto(eng, src, db, CellText(defs[k], 0));
      if merged.Failure? {
        return Failure(merged.error);
      }
      db, copiedLog := merged.value.0, copiedLog + merged.value.1;
      k := k + 1;
    }
    assert defs[k..] == [];
    return Success((db, copiedLog));
  }

  /** `combineDatabases` up to the schema refresh. */
  method CombineDatabases(eng: Engine, srcs: seq<Db>) returns (r: Result<(Db, seq<Copied>)>)
    ensures r == Merged(eng, srcs)
  {
    var db, log := EmptyDb, [];
    var i := 0;
    while i < |srcs|
      invariant 0 <= i <= |srcs|
      invariant Merged(eng, srcs) == MergeSources(eng, db, srcs[i..], log)
    {
      assert srcs[i..][1..] == srcs[i + 1..];
      var merged := MergeSourceInto(eng, db, srcs[i], log);
      if merged.Failure? {
        return merged;
      }
      db, log := merged.value.0, merged.value.1;
      i := i + 1;
    }
    assert srcs[i..] == [];
    return Success((db, log));
  }
}
