/**
 * The application's state and its handlers (src/App.tsx), run one after
 * another: executing the generated SQL into the query history, clearing the
 * history, resetting the session, generating SQL, uploading databases and
 * restoring them from storage at start-up. The schema tree's local copy of
 * the table list lives here too, since it follows the application's list.
 */
module App {
  import opened Wrappers
  import opened Text
  import opened Types
  import opened Engine
  import opened Executor
  import Cleanup
  import Merge
  import Schema
  import opened Storage
  import Explorer

  /** One selected file: its name, the database it opens as (or why it does not), and its base64 text. */
  datatype Upload = Upload(name: string, image: Result<Db>, encoded: string)

  const ApiKeyMissing := "API key is not configured. Please set VITE_OPENROUTER_API_KEY in your .env file."

  /** History entry `i` has id `i + 1`. */
  predicate HistoryNumbered(queries: seq<Query>) {
    forall i :: 0 <= i < |queries| ==> queries[i].id == NatToString(i + 1)
  }

  /** No two history entries share an id. */
  lemma HistoryIdsDistinct(queries: seq<Query>)
    requires HistoryNumbered(queries)
    ensures forall i, j :: 0 <= i < j < |queries| ==> queries[i].id != queries[j].id
  {
    forall i, j | 0 <= i < j < |queries|
      ensures queries[i].id != queries[j].id
    {
      if queries[i].id == queries[j].id {
        NatToStringInjective(i + 1, j + 1);
      }
    }
  }

  lemma HistoryAppend(queries: seq<Query>, q: Query)
    requires HistoryNumbered(queries) && q.id == NatToString(|queries| + 1)
    ensures HistoryNumbered(queries + [q])
  {
    assert forall i :: 0 <= i < |queries| ==> (queries + [q])[i] == queries[i];
    assert (queries + [q])[|queries|] == q;
  }

  /**
   * The history after a run: when the run succeeded, one entry appended with
   * the next number, the SQL that ran and the number of rows it returned;
   * otherwise the history unchanged. A numbered history stays numbered.
   */
  function HistoryAfter(queries: seq<Query>, outcome: BatchOutcome, timestamp: string, sql: string, executionTime: string): (r: seq<Query>)
    ensures outcome.BatchOk? ==>
      && |r| == |queries| + 1 && r[..|queries|] == queries
      && r[|queries|] == Query(NatToString(|queries| + 1), timestamp, sql, executionTime, |outcome.rows|)
    ensures !outcome.BatchOk? ==> r == queries
    ensures HistoryNumbered(queries) ==> HistoryNumbered(r)
  {
    if outcome.BatchOk? then
      var q := Query(NatToString(|queries| + 1), timestamp, sql, executionTime, |outcome.rows|);
      if HistoryNumbered(queries) then HistoryAppend(queries, q); queries + [q] else queries + [q]
    else queries
  }

  /** The result rows after a run: the run's rows when it succeeded. */
  function ResultAfter(rows: seq<Row>, outcome: BatchOutcome): seq<Row> {
    if outcome.BatchOk? then outcome.rows else rows
  }

  predicate AllOpen(files: seq<Upload>) {
    forall i :: 0 <= i < |files| ==> files[i].image.Success?
  }

  function Images(files: seq<Upload>): (dbs: seq<Db>)
    requires AllOpen(files)
    ensures |dbs| == |files| && forall i :: 0 <= i < |files| ==> dbs[i] == files[i].image.value
  {
    seq(|files|, i requires 0 <= i < |files| => files[i].image.value)
  }

  function Names(files: seq<Upload>): (ns: seq<string>)
    ensures |ns| == |files| && forall i :: 0 <= i < |files| ==> ns[i] == files[i].name
  {
    seq(|files|, i requires 0 <= i < |files| => files[i].name)
  }

  function Encoded(files: seq<Upload>): (es: seq<string>)
    ensures |es| == |files| && forall i :: 0 <= i < |files| ==> es[i] == files[i].encoded
  {
    seq(|files|, i requires 0 <= i < |files| => files[i].encoded)
  }

  /** The SQL the generation step offers: the service's cleaning, then the application's. */
  function Generated(content: Option<string>): (r: string)
    ensures Cleanup.SingleSpaced(r) && Cleanup.NoiseFree(r)
  {
    Cleanup.CleanGenerated(Cleanup.CleanCompletion(Cleanup.CompletionText(content)))
  }

  /** How merging the open databases and reading the schema back ends. */
  datatype Refreshed = MergeFailed(error: string) | SchemaFailed(db: Db, error: string) | Described(db: Db, tables: seq<Table>)

  /**
   * `combineDatabases` followed by `refreshSchema` on the merged database,
   * probing `previous` for provenance.
   */
  function Refresh(eng: Engine, instances: seq<Db>, previous: seq<Db>, names: seq<string>): (r: Refreshed)
    ensures r.MergeFailed? <==> Merge.Merged(eng, instances).Failure?
    ensures r.Described? ==> Schema.SchemaOf(eng, r.db, previous, names) == Success(r.tables)
  {
    match Merge.Merged(eng, instances)
    case Failure(m) => MergeFailed(m)
    case Success(merged) =>
      match Schema.SchemaOf(eng, merged.0, previous, names)
      case Failure(m) => SchemaFailed(merged.0, m)
      case Success(ts) => Described(merged.0, ts)
  }

  /**
   * Step by step: a failed merge keeps its message; otherwise the merged
   * database is the one read, and a failed read keeps the read's message.
   */
  lemma RefreshSteps(eng: Engine, instances: seq<Db>, previous: seq<Db>, names: seq<string>)
    ensures var r := Refresh(eng, instances, previous, names);
      && (r.MergeFailed? ==> r.error == Merge.Merged(eng, instances).error)
      && (!r.MergeFailed? ==> r.db == Merge.Merged(eng, instances).value.0)
      && (r.SchemaFailed? ==> Schema.SchemaOf(eng, r.db, previous, names) == Failure(r.error))
  {
  }

  /** The merge and the schema read, run one after the other. */
  method RunRefresh(eng: Engine, instances: seq<Db>, previous: seq<Db>, names: seq<string>) returns (r: Refreshed)
    ensures r == Refresh(eng, instances, previous, names)
  {
    var merged := Merge.CombineDatabases(eng, instances);
    if merged.Failure? {
      return MergeFailed(merged.error);
    }
    var schema := Schema.RefreshSchema(eng, merged.value.0, previous, names);
    if schema.Failure? {
      return SchemaFailed(merged.value.0, schema.error);
    }
    return Described(merged.value.0, schema.value);
  }

  /** The merged database replaces the current one once the merge succeeds. */
  function CombinedAfter(combined: Option<Db>, r: Refreshed): Option<Db> {
    if r.MergeFailed? then combined else Some(r.db)
  }

  /** The table list is replaced only when the schema is read back. */
  function TablesAfter(tables: seq<Table>, r: Refreshed): seq<Table> {
    if r.Described? then r.tables else tables
  }

  /** A failed merge or schema read removes the stored keys when its message says so. */
  function StoreAfter(store: Store, r: Refreshed): Store {
    if !r.Described? && ClearsStorage(r.error) then Cleared(store) else store
  }

  class Session {
    var queries: seq<Query>
    var currentQuery: string
    var generatedSql: string
    var resultRows: seq<Row>
    var error: Option<string>
    var tables: seq<Table>
    var dbInstances: seq<Db>
    var databaseNames: seq<string>
    var combinedDb: Option<Db>
    var store: Store
    /** The schema tree's own copy of `tables`, where expansion is kept. */
    var shownTables: seq<Table>

    /** History ids follow positions, and there is a name for every open database. */
    predicate Valid()
      reads this
    {
      HistoryNumbered(queries) && |dbInstances| <= |databaseNames|
    }

    /** A fresh page over whatever the browser's storage holds. */
    constructor(store: Store)
      ensures Valid()
      ensures queries == [] && currentQuery == "" && generatedSql == "" && resultRows == [] && error == None
      ensures tables == [] && dbInstances == [] && databaseNames == [] && combinedDb == None
      ensures this.store == store && shownTables == []
    {
      queries, currentQuery, generatedSql, resultRows, error := [], "", "", [], None;
      tables, dbInstances, databaseNames, combinedDb := [], [], [], None;
      this.store, shownTables := store, [];
    }

    /**
     * `handleExecuteQuery`. Nothing happens without SQL text or a database.
     * Otherwise the statements run in order against the database, which
     * keeps the changes of every statement that ran; on success the rows
     * become the result and one history entry is appended, on failure the
     * result and the history stay as they were.
     */
    method ExecuteQuery(eng: Engine, timestamp: string, executionTime: string)
      requires Valid()
      modifies this`combinedDb, this`resultRows, this`queries
      ensures Valid()
      ensures old(generatedSql) == "" || old(combinedDb).None? ==>
        combinedDb == old(combinedDb) && resultRows == old(resultRows) && queries == old(queries)
      ensures old(generatedSql) != "" && old(combinedDb).Some? ==>
        var outcome := Batch(eng, old(combinedDb).value, SplitStatements(old(generatedSql)));
        && combinedDb == Some(outcome.db)
        && resultRows == ResultAfter(old(resultRows), outcome)
        && queries == HistoryAfter(old(queries), outcome, timestamp, old(generatedSql), executionTime)
    {
      if generatedSql == "" || combinedDb.None? {
        return;
      }
      var outcome := RunBatch(eng, combinedDb.value, SplitStatements(generatedSql));
      combinedDb, resultRows, queries :=
        Some(outcome.db), ResultAfter(resultRows, outcome), HistoryAfter(queries, outcome, timestamp, generatedSql, executionTime);
    }

    /** `handleClearHistory`: the history and the result rows emptied, nothing else touched. */
    method ClearHistory()
      modifies this`queries, this`resultRows
      requires Valid()
      ensures Valid()
      ensures queries == [] && resultRows == []
    {
      queries, resultRows := [], [];
    }

    /**
     * `handleReset`: prompt, SQL, results, error, databases, names and
     * tables cleared and both storage keys removed; the history is kept.
     */
    method Reset()
      requires Valid()
      modifies this`currentQuery, this`generatedSql, this`resultRows, this`error
      modifies this`dbInstances, this`databaseNames, this`tables, this`combinedDb, this`store, this`shownTables
      ensures Valid()
      ensures currentQuery == "" && generatedSql == "" && resultRows == [] && error == None
      ensures dbInstances == [] && databaseNames == [] && tables == [] && combinedDb == None
      ensures store == Cleared(old(store)) && shownTables == []
    {
      currentQuery, generatedSql, resultRows, error := "", "", [], None;
      dbInstances, databaseNames, tables, combinedDb := [], [], [], None;
      store := Cleared(store);
      shownTables := [];
    }

    /**
     * `handleGenerateSql`, with the service's reply given: the prompt is
     * recorded and the previous SQL and error cleared; without an API key,
     * or when the service fails, the error is set; otherwise the reply's
     * content, cleaned, becomes the SQL.
     */
    method GenerateSql(prompt: string, hasApiKey: bool, reply: Result<Option<string>>)
      requires Valid()
      modifies this`currentQuery, this`generatedSql, this`error
      ensures Valid()
      ensures currentQuery == prompt
      ensures !hasApiKey ==> generatedSql == "" && error == Some(ApiKeyMissing)
      ensures hasApiKey && reply.Failure? ==> generatedSql == "" && error == Some(reply.error)
      ensures hasApiKey && reply.Success? ==> generatedSql == Generated(reply.value) && error == None
    {
      currentQuery, generatedSql, error := prompt, "", None;
      if !hasApiKey {
        error := Some(ApiKeyMissing);
      } else if reply.Failure? {
        error := Some(reply.error);
      } else {
        generatedSql := Generated(reply.value);
      }
    }

    /**
     * `handleUploadDatabase`. An empty selection, or a file that does not
     * open, changes nothing. Otherwise the new databases and names are
     * appended, storage receives the images already stored followed by the
     * new ones, and all the names (the corrected write: the code stores only
     * the new images, see `Storage.UploadStore`), and the whole list is
     * merged; the schema is read from the merged database, with provenance
     * probed in the databases open before this upload.
     */
    method UploadFiles(eng: Engine, files: seq<Upload>)
      requires Valid()
      modifies this`dbInstances, this`databaseNames, this`combinedDb, this`tables, this`shownTables, this`store
      ensures Valid()
      ensures |files| == 0 || !AllOpen(files) ==>
        && dbInstances == old(dbInstances) && databaseNames == old(databaseNames) && store == old(store)
        && combinedDb == old(combinedDb) && tables == old(tables) && shownTables == old(shownTables)
      ensures |files| > 0 && AllOpen(files) ==>
        && dbInstances == old(dbInstances) + Images(files)
        && databaseNames == old(databaseNames) + Names(files)
        && store == AppendStore(old(store), StoredImages(old(store)), Encoded(files), databaseNames)
        && combinedDb == CombinedAfter(old(combinedDb), Refresh(eng, dbInstances, old(dbInstances), databaseNames))
        && tables == TablesAfter(old(tables), Refresh(eng, dbInstances, old(dbInstances), databaseNames))
        && shownTables == TablesAfter(old(shownTables), Refresh(eng, dbInstances, old(dbInstances), databaseNames))
    {
      if |files| == 0 {
        return;
      }
      var newInstances, newNames, encoded := dbInstances, databaseNames, [];
      var i := 0;
      while i < |files|
        invariant 0 <= i <= |files|
        invariant AllOpen(files[..i])
        invariant newInstances == dbInstances + Images(files[..i])
        invariant newNames == databaseNames + Names(files[..i])
        invariant encoded == Encoded(files[..i])
      {
        if files[i].image.Failure? {
          return;
        }
        assert files[..i + 1] == files[..i] + [files[i]];
        newInstances := newInstances + [files[i].image.value];
        newNames := newNames + [files[i].name];
        encoded := encoded + [files[i].encoded];
        i := i + 1;
      }
      assert files[..i] == files;
      store := AppendStore(store, StoredImages(store), encoded, newNames);
      Install(eng, newInstances, newNames, dbInstances, false);
    }

    /**
     * The start-up load. Nothing happens unless both keys hold text. A
     * count mismatch or an image that does not decode removes both keys.
     * Otherwise the decoded databases and all the stored names replace the
     * current ones and are merged; the schema is read with no databases to
     * probe for provenance, since the load sees the initial empty list. A
     * later failure removes the keys only when its message mentions a
     * mismatch or a decoding failure.
     */
    method LoadFromStorage(eng: Engine, decode: string -> Result<Db>)
      requires Valid()
      modifies this`dbInstances, this`databaseNames, this`combinedDb, this`tables, this`shownTables, this`store
      ensures Valid()
      ensures !LoadStored(old(store), decode).Decoded? ==>
        && dbInstances == old(dbInstances) && databaseNames == old(databaseNames)
        && combinedDb == old(combinedDb) && tables == old(tables) && shownTables == old(shownTables)
      ensures LoadStored(old(store), decode).NothingStored? ==> store == old(store)
      ensures LoadStored(old(store), decode).LoadFailed? ==> store == Cleared(old(store))
      ensures LoadStored(old(store), decode).Decoded? ==>
        && dbInstances == LoadStored(old(store), decode).instances
        && databaseNames == LoadStored(old(store), decode).names
        && combinedDb == CombinedAfter(old(combinedDb), Refresh(eng, dbInstances, [], databaseNames))
        && tables == TablesAfter(old(tables), Refresh(eng, dbInstances, [], databaseNames))
        && shownTables == TablesAfter(old(shownTables), Refresh(eng, dbInstances, [], databaseNames))
        && store == StoreAfter(old(store), Refresh(eng, dbInstances, [], databaseNames))
    {
      var loaded := LoadPieces(store, decode);
      if loaded.NothingStored? {
        return;
      }
      if loaded.LoadFailed? {
        LoadStoredFailureClears(store, decode);
        store := Cleared(store);
        return;
      }
      Install(eng, loaded.instances, loaded.names, [], true);
    }

    /**
     * The databases and names installed, then merged and the schema read
     * back with provenance probed in `previous`; when `clearOnFailure`, a
     * failure whose message says so removes the stored keys.
     */
    method Install(eng: Engine, instances: seq<Db>, names: seq<string>, previous: seq<Db>, clearOnFailure: bool)
      modifies this`dbInstances, this`databaseNames, this`combinedDb, this`tables, this`shownTables, this`store
      ensures dbInstances == instances && databaseNames == names
      ensures combinedDb == CombinedAfter(old(combinedDb), Refresh(eng, instances, previous, names))
      ensures tables == TablesAfter(old(tables), Refresh(eng, instances, previous, names))
      ensures shownTables == TablesAfter(old(shownTables), Refresh(eng, instances, previous, names))
      ensures store == (if clearOnFailure then StoreAfter(old(store), Refresh(eng, instances, previous, names)) else old(store))
    {
      var outcome := RunRefresh(eng, instances, previous, names);
      var stored := if clearOnFailure then StoreAfter(store, outcome) else store;
      dbInstances, databaseNames, combinedDb, tables, shownTables, store :=
        instances, names, CombinedAfter(combinedDb, outcome), TablesAfter(tables, outcome), TablesAfter(shownTables, outcome), stored;
    }

    /** `toggleTable` in the schema tree: only the tree's copy changes. */
    method ToggleTable(id: string)
      modifies this`shownTables
      ensures shownTables == Explorer.Toggle(old(shownTables), id)
    {
      shownTables := Explorer.Toggle(shownTables, id);
    }
  }
}
