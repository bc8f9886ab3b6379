/**
 * Running the generated SQL (src/App.tsx, `handleExecuteQuery`): the text is
 * cut into statements, the statements run one after another on the merged
 * database, and every row they return becomes a column -> value record.
 */
module Executor {
  import opened Wrappers
  import opened Text
  import opened Types
  import opened Engine

  // ---------------------------------------------------------------------------
  // generatedSql.split(";").map(s => s.trim()).filter(Boolean)

  function TrimAll(pieces: seq<string>): (r: seq<string>)
    ensures |r| == |pieces|
    ensures forall k :: 0 <= k < |r| ==> r[k] == Trim(pieces[k])
  {
    if pieces == [] then [] else [Trim(pieces[0])] + TrimAll(pieces[1..])
  }

  function DropEmpty(pieces: seq<string>): (r: seq<string>)
    ensures |r| <= |pieces|
    ensures forall k :: 0 <= k < |r| ==> r[k] != [] && r[k] in pieces
    ensures (forall k :: 0 <= k < |pieces| ==> pieces[k] != []) ==> r == pieces
  {
    if pieces == [] then []
    else if pieces[0] == [] then DropEmpty(pieces[1..])
    else [pieces[0]] + DropEmpty(pieces[1..])
  }

  /** Dropping empty pieces works piece by piece: each non-empty piece is kept, in order. */
  lemma DropEmptyAppend(a: seq<string>, b: seq<string>)
    ensures DropEmpty(a + b) == DropEmpty(a) + DropEmpty(b)
    ensures DropEmpty([]) == [] && forall p :: DropEmpty([p]) == if p == [] then [] else [p]
  {
    DropEmptyConcat(a, b);
    forall p
      ensures DropEmpty([p]) == if p == [] then [] else [p]
    {
      DropEmptySingle(p);
    }
  }

  lemma {:induction false} DropEmptyConcat(a: seq<string>, b: seq<string>)
    ensures DropEmpty(a + b) == DropEmpty(a) + DropEmpty(b)
    decreases |a|
  {
    if a == [] {
      assert a + b == b;
    } else {
      assert (a + b)[0] == a[0] && (a + b)[1..] == a[1..] + b;
      DropEmptyConcat(a[1..], b);
      if a[0] != [] {
        ConsAppend(a[0], DropEmpty(a[1..]), DropEmpty(b));
      }
    }
  }

  lemma ConsAppend(x: string, ys: seq<string>, zs: seq<string>)
    ensures [x] + (ys + zs) == ([x] + ys) + zs
  {
  }

  lemma DropEmptySingle(p: string)
    ensures DropEmpty([p]) == if p == [] then [] else [p]
  {
    assert [p][1..] == [];
  }

  /**
   * The statements of a batch: the `;`-separated pieces, trimmed, empty ones
   * dropped. Each is non-empty, trimmed and free of `;`.
   */
  function SplitStatements(sql: string): (r: seq<string>)
    ensures forall k :: 0 <= k < |r| ==> r[k] != [] && Trimmed(r[k]) && ';' !in r[k]
  {
    var pieces := Split(sql, ";");
    var trimmed := TrimAll(pieces);
    forall k | 0 <= k < |trimmed|
      ensures Trimmed(trimmed[k]) && ';' !in trimmed[k]
    {
      FreeOfChar(pieces[k], ';');
      TrimAvoids(pieces[k], ';');
    }
    DropEmpty(trimmed)
  }

  /** Trimming keeps out a character the text does not hold. */
  lemma TrimAvoids(s: string, c: char)
    requires c !in s
    ensures c !in Trim(s)
  {
    var a := LeadingSpaces(s);
    assert Trim(s) == s[a..a + |Trim(s)|];
    assert forall x :: x in Trim(s) ==> x in s;
  }

  /** Statements that are already non-empty, trimmed and free of `;`, joined with `;`, split back to themselves. */
  lemma SplitStatementsJoin(stmts: seq<string>)
    requires |stmts| >= 1
    requires forall k :: 0 <= k < |stmts| ==> stmts[k] != [] && Trimmed(stmts[k]) && ';' !in stmts[k]
    ensures SplitStatements(Join(stmts, ";")) == stmts
  {
    SplitStatementsOfPieces(stmts);
    TrimAllTrimmed(stmts);
  }

  /** Trimming pieces that are already trimmed changes none of them. */
  lemma TrimAllTrimmed(pieces: seq<string>)
    requires forall k :: 0 <= k < |pieces| ==> Trimmed(pieces[k])
    ensures TrimAll(pieces) == pieces
  {
    var trimmed := TrimAll(pieces);
    forall k | 0 <= k < |pieces|
      ensures trimmed[k] == pieces[k]
    {
      TrimIdentity(pieces[k]);
    }
  }

  /** Pieces free of `;` joined with `;` come back as those pieces, trimmed, the empty ones dropped. */
  lemma SplitStatementsOfPieces(pieces: seq<string>)
    requires |pieces| >= 1
    requires forall k :: 0 <= k < |pieces| ==> ';' !in pieces[k]
    ensures SplitStatements(Join(pieces, ";")) == DropEmpty(TrimAll(pieces))
  {
    SplitJoin(pieces, ";");
  }

  // ---------------------------------------------------------------------------
  // Object.fromEntries(row.map((val, idx) => [result[0].columns[idx], val]))

  /** `columns[idx]` used as a property key: past the end it is `undefined`, which becomes the key "undefined". */
  function ColumnKey(columns: seq<string>, idx: nat): string {
    if idx < |columns| then columns[idx] else "undefined"
  }

  function Entries(columns: seq<string>, values: seq<Value>): (r: seq<(string, Value)>)
    ensures |r| == |values|
    ensures forall i :: 0 <= i < |r| ==> r[i] == (ColumnKey(columns, i), values[i])
  {
    seq(|values|, i requires 0 <= i < |values| => (ColumnKey(columns, i), values[i]))
  }

  /** Assigning `record[key] = value`: an existing key keeps its place, a new key goes last. */
  function Put(row: Row, key: string, v: Value): (r: Row)
    ensures key in Keys(row) ==> Keys(r) == Keys(row)
    ensures key !in Keys(row) ==> Keys(r) == Keys(row) + [key]
  {
    if row == [] then [(key, v)]
    else if row[0].0 == key then [(key, v)] + row[1..]
    else
      var rest := Put(row[1..], key, v);
      var r := [row[0]] + rest;
      assert Keys(row) == [row[0].0] + Keys(row[1..]);
      assert Keys(r) == [row[0].0] + Keys(rest);
      r
  }

  /** After the assignment the key reads as the value assigned and every other key reads as before. */
  lemma {:induction false} PutLookup(row: Row, key: string, v: Value, k: string)
    ensures Lookup(Put(row, key, v), k) == if k == key then Some(v) else Lookup(row, k)
  {
    if row != [] && row[0].0 != key {
      PutLookup(row[1..], key, v, k);
      var r := Put(row, key, v);
      assert r[0] == row[0] && r[1..] == Put(row[1..], key, v);
    }
  }

  /** `Object.fromEntries`: entries are assigned in order, so a repeated key keeps its first place and its last value. */
  function FromEntries(es: seq<(string, Value)>): (r: Row)
    ensures DistinctKeys(r)
    ensures forall key :: key in Keys(r) <==> key in KeysOf(es)
  {
    if es == [] then []
    else
      var init := FromEntries(es[..|es| - 1]);
      var last := es[|es| - 1];
      PutDistinct(init, last.0, last.1);
      PutKeys(init, last.0, last.1);
      KeysOfSnoc(es);
      Put(init, last.0, last.1)
  }

  /** After an assignment the keys are the old keys and the key assigned. */
  lemma PutKeys(row: Row, key: string, v: Value)
    ensures forall x :: x in Keys(Put(row, key, v)) <==> x in Keys(row) || x == key
  {
  }

  /** The keys of the entries are the keys of all but the last, and the last one's. */
  lemma KeysOfSnoc(es: seq<(string, Value)>)
    requires es != []
    ensures forall x :: x in KeysOf(es) <==> x in KeysOf(es[..|es| - 1]) || x == es[|es| - 1].0
  {
    assert KeysOf(es) == KeysOf(es[..|es| - 1]) + [es[|es| - 1].0];
  }

  /** An assignment keeps the keys of a record distinct. */
  lemma PutDistinct(row: Row, key: string, v: Value)
    requires DistinctKeys(row)
    ensures DistinctKeys(Put(row, key, v))
  {
    var r := Put(row, key, v);
    var ks := Keys(r);
    forall i, j | 0 <= i < j < |r|
      ensures r[i].0 != r[j].0
    {
      assert ks[i] == r[i].0 && ks[j] == r[j].0;
      if j < |row| {
        assert Keys(row)[i] == row[i].0 && Keys(row)[j] == row[j].0;
      }
    }
  }

  /** The reference reading of a record built from entries: the value of the last entry with that key. */
  function LastValue(es: seq<(string, Value)>, key: string): Option<Value> {
    if es == [] then None
    else if es[|es| - 1].0 == key then Some(es[|es| - 1].1)
    else LastValue(es[..|es| - 1], key)
  }

  /** Reading a key of the built record yields the last value given for it, and `undefined` for a key never given. */
  lemma {:induction false} FromEntriesLookup(es: seq<(string, Value)>, key: string)
    ensures Lookup(FromEntries(es), key) == LastValue(es, key)
  {
    if es != [] {
      FromEntriesLookup(es[..|es| - 1], key);
      PutLookup(FromEntries(es[..|es| - 1]), es[|es| - 1].0, es[|es| - 1].1, key);
    }
  }

  function KeysOf(es: seq<(string, Value)>): (ks: seq<string>)
    ensures |ks| == |es| && forall i :: 0 <= i < |es| ==> ks[i] == es[i].0
  {
    seq(|es|, i requires 0 <= i < |es| => es[i].0)
  }

  predicate DistinctEntryKeys(es: seq<(string, Value)>) {
    forall i, j :: 0 <= i < j < |es| ==> es[i].0 != es[j].0
  }

  /** With distinct keys, the record's keys are the entries' keys in entry order. */
  lemma {:induction false} FromEntriesKeys(es: seq<(string, Value)>)
    requires DistinctEntryKeys(es)
    ensures Keys(FromEntries(es)) == KeysOf(es)
  {
    if es != [] {
      var init := es[..|es| - 1];
      FromEntriesKeys(init);
      assert KeysOf(es) == KeysOf(init) + [es[|es| - 1].0];
      assert es[|es| - 1].0 !in KeysOf(init);
    }
  }

  /** With distinct keys, each key's last value is its only value. */
  lemma {:induction false} LastValueDistinct(es: seq<(string, Value)>, i: nat)
    requires DistinctEntryKeys(es) && i < |es|
    ensures LastValue(es, es[i].0) == Some(es[i].1)
  {
    if i < |es| - 1 {
      LastValueDistinct(es[..|es| - 1], i);
    }
  }

  /** One value row turned into a record keyed by the statement's column names. */
  function MapRow(columns: seq<string>, values: seq<Value>): (r: Row)
    ensures DistinctKeys(r)
    ensures forall key :: key in Keys(r) <==> exists i :: 0 <= i < |values| && ColumnKey(columns, i) == key
  {
    var es := Entries(columns, values);
    assert forall i :: 0 <= i < |es| ==> KeysOf(es)[i] == ColumnKey(columns, i);
    FromEntries(es)
  }

  /** A row whose column names are distinct maps each name to its own cell, in column order. */
  lemma MapRowDistinct(columns: seq<string>, values: seq<Value>)
    requires |values| == |columns|
    requires forall i, j :: 0 <= i < j < |columns| ==> columns[i] != columns[j]
    ensures Keys(MapRow(columns, values)) == columns
    ensures forall i :: 0 <= i < |columns| ==> Lookup(MapRow(columns, values), columns[i]) == Some(values[i])
  {
    var es := Entries(columns, values);
    FromEntriesKeys(es);
    assert KeysOf(es) == columns;
    forall i | 0 <= i < |columns|
      ensures Lookup(MapRow(columns, values), columns[i]) == Some(values[i])
    {
      FromEntriesLookup(es, columns[i]);
      LastValueDistinct(es, i);
    }
  }

  /** What one statement contributes: the rows of its first result set, if it has one. */
  function RowsOf(results: seq<ResultSet>): (r: seq<Row>)
    ensures results == [] ==> r == []
    ensures results != [] ==> |r| == |results[0].values|
    ensures results != [] ==> forall i :: 0 <= i < |r| ==> r[i] == MapRow(results[0].columns, results[0].values[i])
  {
    if results == [] then []
    else seq(|results[0].values|, i requires 0 <= i < |results[0].values| => MapRow(results[0].columns, results[0].values[i]))
  }

  // ---------------------------------------------------------------------------
  // The batch.

  /**
   * A finished batch: the database after every statement and the rows they
   * returned; or the first failure, with the database as the statements
   * before it left it (nothing is rolled back).
   */
  datatype BatchOutcome = BatchOk(db: Db, rows: seq<Row>) | BatchFailed(db: Db, message: string)

  /** The batch run from `db`, with `acc` the rows accumulated so far. */
  function RunFrom(eng: Engine, db: Db, stmts: seq<string>, acc: seq<Row>): (r: BatchOutcome)
    ensures r.BatchOk? ==> acc <= r.rows
    decreases |stmts|
  {
    if stmts == [] then BatchOk(db, acc)
    else
      match eng.exec(db, stmts[0])
      case ExecFailed(m) => BatchFailed(db, m)
      case Executed(next, results) => RunFrom(eng, next, stmts[1..], acc + RowsOf(results))
  }

  /** The batch semantics: statements in textual order, rows concatenated, first failure stops it. */
  function Batch(eng: Engine, db: Db, stmts: seq<string>): (r: BatchOutcome)
    ensures stmts == [] ==> r == BatchOk(db, [])
    ensures stmts != [] && eng.exec(db, stmts[0]).ExecFailed? ==> r == BatchFailed(db, eng.exec(db, stmts[0]).message)
  {
    RunFrom(eng, db, stmts, [])
  }

  /** `outcome` with `acc` put ahead of its rows. */
  function Prefix(acc: seq<Row>, outcome: BatchOutcome): BatchOutcome {
    match outcome
    case BatchOk(d, rows) => BatchOk(d, acc + rows)
    case BatchFailed(d, m) => outcome
  }

  /** Rows accumulated before a point only ever prefix the outcome. */
  lemma {:induction false} RunFromAcc(eng: Engine, db: Db, stmts: seq<string>, acc: seq<Row>)
    ensures RunFrom(eng, db, stmts, acc) == Prefix(acc, Batch(eng, db, stmts))
    decreases |stmts|
  {
    if stmts == [] {
      assert acc + [] == acc;
    } else {
      match eng.exec(db, stmts[0])
      case ExecFailed(m) =>
      case Executed(next, results) =>
        var own := RowsOf(results);
        var rest := Batch(eng, next, stmts[1..]);
        assert [] + own == own;
        assert Batch(eng, db, stmts) == RunFrom(eng, next, stmts[1..], own);
        RunFromAcc(eng, next, stmts[1..], own);
        RunFromAcc(eng, next, stmts[1..], acc + own);
        PrefixPrefix(acc, own, rest);
    }
  }

  lemma PrefixPrefix(acc: seq<Row>, own: seq<Row>, outcome: BatchOutcome)
    ensures Prefix(acc, Prefix(own, outcome)) == Prefix(acc + own, outcome)
  {
    if outcome.BatchOk? {
      assert (acc + own) + outcome.rows == acc + (own + outcome.rows);
    }
  }

  /**
   * One statement's step of the batch: a failing statement stops it with its
   * message and the database as it was; an executed one contributes the rows
   * of its first result set ahead of the rest of the batch, which runs on the
   * database the statement left.
   */
  lemma BatchCons(eng: Engine, db: Db, stmts: seq<string>)
    requires stmts != []
    ensures Batch(eng, db, stmts) == match eng.exec(db, stmts[0])
      case ExecFailed(m) => BatchFailed(db, m)
      case Executed(next, results) => Prefix(RowsOf(results), Batch(eng, next, stmts[1..]))
  {
    match eng.exec(db, stmts[0])
    case ExecFailed(m) =>
    case Executed(next, results) =>
      assert [] + RowsOf(results) == RowsOf(results);
      RunFromAcc(eng, next, stmts[1..], RowsOf(results));
  }

  /** A single statement: its failure, or the database it leaves and the rows of its first result set. */
  lemma BatchOne(eng: Engine, db: Db, s: string)
    ensures Batch(eng, db, [s]) == match eng.exec(db, s)
      case ExecFailed(m) => BatchFailed(db, m)
      case Executed(next, results) => BatchOk(next, RowsOf(results))
  {
    BatchCons(eng, db, [s]);
    match eng.exec(db, s)
    case ExecFailed(m) =>
    case Executed(next, results) =>
      assert [s][1..] == [];
      assert RowsOf(results) + [] == RowsOf(results);
  }

  /** The rest of a batch after `outcome`: nothing more if it failed, else `second` on the database it left, its rows first. */
  function AndThen(eng: Engine, outcome: BatchOutcome, second: seq<string>): BatchOutcome {
    match outcome
    case BatchFailed(d, m) => outcome
    case BatchOk(d, rows) => Prefix(rows, Batch(eng, d, second))
  }

  /**
   * Running `first + second` is running `first`, then, if it succeeded,
   * running `second` on the database it left, the rows of `first` ahead of
   * those of `second`; a failure in `first` ends the batch there.
   */
  lemma {:induction false} BatchAppend(eng: Engine, db: Db, first: seq<string>, second: seq<string>)
    ensures Batch(eng, db, first + second) == AndThen(eng, Batch(eng, db, first), second)
    decreases |first|
  {
    if first == [] {
      assert first + second == second;
      match Batch(eng, db, second)
      case BatchFailed(d, m) =>
      case BatchOk(d, rows) => assert [] + rows == rows;
    } else {
      assert (first + second)[0] == first[0];
      assert (first + second)[1..] == first[1..] + second;
      match eng.exec(db, first[0])
      case ExecFailed(m) =>
      case Executed(next, results) =>
        var own := RowsOf(results);
        assert [] + own == own;
        RunFromAcc(eng, next, first[1..] + second, own);
        RunFromAcc(eng, next, first[1..], own);
        BatchAppend(eng, next, first[1..], second);
        PrefixAndThen(eng, own, Batch(eng, next, first[1..]), second);
    }
  }

  lemma PrefixAndThen(eng: Engine, acc: seq<Row>, outcome: BatchOutcome, second: seq<string>)
    ensures Prefix(acc, AndThen(eng, outcome, second)) == AndThen(eng, Prefix(acc, outcome), second)
  {
    match outcome
    case BatchFailed(d, m) =>
    case BatchOk(d, rows) =>
      PrefixPrefix(acc, rows, Batch(eng, d, second));
  }

  /**
   * The loop of `handleExecuteQuery`: each statement in turn, rows appended
   * as they come, the first thrown error ending the batch.
   */
  method RunBatch(eng: Engine, db: Db, stmts: seq<string>) returns (outcome: BatchOutcome)
    ensures outcome == Batch(eng, db, stmts)
  {
    var current := db;
    var allRows: seq<Row> := [];
    var i := 0;
    while i < |stmts|
      invariant 0 <= i <= |stmts|
      invariant Batch(eng, db, stmts) == RunFrom(eng, current, stmts[i..], allRows)
    {
      assert stmts[i..][0] == stmts[i] && stmts[i..][1..] == stmts[i + 1..];
      var result := eng.exec(current, stmts[i]);
      match result {
        case ExecFailed(m) =>
          return BatchFailed(current, m);
        case Executed(next, results) =>
          if |results| > 0 {
            allRows := allRows + RowsOf(results);
          } else {
            assert RowsOf(results) == [];
            assert allRows + RowsOf(results) == allRows;
          }
          current := next;
      }
      i := i + 1;
    }
    outcome := BatchOk(current, allRows);
  }
}
