# SQL Assistant — a Dafny model of its core

SQL Assistant is a browser application that answers natural-language
questions about uploaded SQLite databases. A language-model service
turns the question into SQL. The application cleans that SQL up and runs
it on an in-memory database merged from every uploaded file. It shows the
rows, keeps a history of the queries, and lets the user export the rows
as CSV or as an SQL script. The uploaded files persist across page loads:
they are base64 images in the browser's key/value storage.

The model covers that core:

- `Text` — the JavaScript string operations the code relies on: `trim`,
  `\s`, `split`/`join` on a literal separator, decimal rendering.
- `Types`, `Engine` — the records of `src/types.ts`, the cell values, and
  the embedded SQLite engine (sql.js) as an abstract oracle. A database is
  a value that each statement threads on.
- `Cleanup` — the regular-expression clean-up of a completion, first in
  the service client and then in the application, including the removal
  of a trailing `LIMIT n [OFFSET m]`.
- `Executor` — splitting the SQL on `;`, mapping result rows to records,
  and running the statements in order.
- `Merge` — `combineDatabases`: every source's table definitions are
  replayed on a fresh database and their rows copied with `INSERT OR
  IGNORE`.
- `Schema` — `refreshSchema`: the schema snapshot with each table's
  columns and the first uploaded database that declares it.
- `Storage` — the `|||`-joined images and names in storage, and the load
  at start-up.
- `Export` — the CSV and SQL exports, with readers that prove they
  round-trip.
- `Explorer` — the schema tree's expand/collapse state.
- `App` — the application state as a class `Session` whose methods are
  the event handlers.

Loops in the source are methods with loop invariants. Each is proved
equal to a recursive function, and the properties are proved about those
functions.

## Model

| member | source | states |
|---|---|---|
| Text.Trim | src/App.tsx:248 | The result has no whitespace at either end. It is the slice of the input that starts after the leading whitespace. Only whitespace follows it. |
| Text.IndexOf | src/App.tsx:69-70 | Finds the least position where the separator occurs, or reports that it occurs nowhere. |
| Text.Split | src/App.tsx:69-70 | Splitting yields at least one piece, and no piece contains the separator. Joining the pieces with the same separator gives back the text. Each cut falls at the first occurrence in what remains: every piece but the last, followed by the separator, holds its first occurrence right after the piece. So a self-overlapping separator, such as the three bars that join stored names, is cut left to right without overlap, and the pieces are fixed uniquely. |
| Text.SplitJoin | src/App.tsx:342-343 | Pieces without the separator's first character, joined and split again, come back unchanged. |
| Text.Leftmost | src/App.tsx:140 | The leftmost position where a pattern matches: it matches there and at no earlier position; `None` means it matches nowhere. |
| Text.NatToString | src/App.tsx:294 | The rendering of a number is a non-empty run of decimal digits. |
| Text.NatToStringValue | src/App.tsx:294 | The decimal rendering denotes the number rendered. |
| Text.NatToStringInjective | src/App.tsx:294 | Different numbers render differently. |
| Text.LeadingDigits | src/App.tsx:251 | The length of the maximal run of digits at the start of a text. |
| Types.Keys | src/components/SqlAssistant.tsx:56 | A record's keys are its entries' keys, in entry order. |
| Types.Lookup | src/components/SqlAssistant.tsx:65 | Reading a key the record holds gives a value stored under that key, and any other key reads as `undefined`. Keys inherited from `Object.prototype` are not modelled (see Left out). |
| Cleanup.StripFences | src/services/openRouter.ts:44 | After ```` ```sql ```` and ```` ``` ```` are removed, no ```` ``` ```` is left in the text. |
| Cleanup.StripFencesKeepsText | src/services/openRouter.ts:44 | Text before the first fence is kept as it is, followed by the clean-up of the rest. |
| Cleanup.StripFencesAtFence | src/services/openRouter.ts:44 | At a fence, exactly the fence (```` ```sql ```` or ```` ``` ````) is dropped and the text after it is cleaned. |
| Cleanup.StripFencesIdentity | src/App.tsx:244 | Text without a fence is left unchanged. |
| Cleanup.StripComments | src/App.tsx:245-246 | After each comment marker and the rest of its line are removed, the marker occurs nowhere. The first word and a leading space are kept. |
| Cleanup.StripCommentsKeepsText | src/App.tsx:245-246 | Text before the first comment marker is kept as it is, followed by the clean-up of the rest. |
| Cleanup.StripCommentsAtMarker | src/App.tsx:245-246 | At a marker, the marker and the rest of its line are dropped, and the line break and what follows are cleaned. |
| Cleanup.StripCommentsIdentity | src/services/openRouter.ts:45 | Text without the marker is left unchanged. |
| Cleanup.StripCommentsKeepsFree | src/App.tsx:244-246 | Removing comments never creates an occurrence of a space-free pattern that was absent. |
| Cleanup.Collapse | src/services/openRouter.ts:46 | Each whitespace run becomes one space. The result is single-spaced, empty exactly when the input is, and starts with the same word. |
| Cleanup.CollapseLast | src/services/openRouter.ts:46 | The result ends with a space exactly when the input ends with whitespace: a trailing run becomes one space. |
| Cleanup.CollapseWords | src/services/openRouter.ts:46 | Collapsing keeps every word: the result has the same maximal non-space runs, in the same order. |
| Cleanup.CollapseIdentity | src/App.tsx:247 | Single-spaced text is left unchanged. |
| Cleanup.CollapseKeepsFree | src/App.tsx:247 | Collapsing whitespace never creates an occurrence of a space-free pattern. |
| Cleanup.Squeeze | src/App.tsx:247-248 | Collapse then trim gives text that is trimmed and single-spaced. |
| Cleanup.SqueezeKeepsFree | src/App.tsx:247-248 | Collapse then trim never creates an occurrence of a space-free pattern. |
| Cleanup.TrimKeepsFree | src/App.tsx:248 | Trimming never creates an occurrence of a pattern. |
| Cleanup.SqueezeIdentity | src/App.tsx:247-248 | Text that is trimmed and single-spaced is left unchanged. |
| Cleanup.CompletionText | src/services/openRouter.ts:41 | A missing completion reads as the empty text. |
| Cleanup.CleanCompletion | src/services/openRouter.ts:43-47 | The client's clean-up yields text that is trimmed and single-spaced, with no `--` and no ```` ``` ````. |
| Cleanup.CleanCompletionIdempotent | src/services/openRouter.ts:43-49 | Cleaning twice gives the same text as cleaning once. |
| Cleanup.CleanIsFixed | src/services/openRouter.ts:43-47 | Text that already has every property the clean-up guarantees is left unchanged by it. |
| Cleanup.StripGeneratedNoise | src/App.tsx:244-246 | No fence, no `Note:` in any case, and no `--` are left. |
| Cleanup.SqueezeKeepsNoiseFree | src/App.tsx:244-248 | Collapse then trim keeps the text free of all three. |
| Cleanup.StripLimit | src/App.tsx:251 | The result is a prefix of the input. The removed tail is a full `LIMIT\s+\d+(\s+OFFSET\s+\d+)?\s*$` match in any case, and it starts at the leftmost position where such a tail matches. Nothing is removed when no position matches. |
| Cleanup.StripLimitKeepsNoiseFree | src/App.tsx:251 | Removing the LIMIT tail keeps the text free of fences, notes and comments. |
| Cleanup.StripLimitKeepsSingleSpaced | src/App.tsx:251 | Removing the LIMIT tail keeps the text single-spaced. |
| Cleanup.StripLimitKeepsFree | src/App.tsx:251 | Removing the LIMIT tail never creates an occurrence of a pattern. |
| Cleanup.CleanGenerated | src/App.tsx:243-251 | The application's clean-up yields single-spaced text with no fence, note or comment. It is the squeezed text cut right before the leftmost trailing LIMIT clause. No LIMIT clause starts earlier, and the text is kept whole only when none occurs. |
| Executor.TrimAll | src/App.tsx:272 | Each piece is trimmed, in place and in order. |
| Executor.DropEmpty | src/App.tsx:272 | Empty pieces are dropped and every remaining piece is an original one. A list without empty pieces is kept as it is. |
| Executor.DropEmptyAppend | src/App.tsx:272 | Filtering a concatenation filters each part. A single piece is kept exactly when it is non-empty, so the filter keeps every non-empty piece, in order. |
| Executor.SplitStatements | src/App.tsx:272 | Every statement is non-empty, trimmed and free of `;`. |
| Executor.SplitStatementsJoin | src/App.tsx:272 | Statements of that shape joined with `;` split back into the same list. |
| Executor.SplitStatementsOfPieces | src/App.tsx:272 | Pieces free of `;`, joined with `;`, split back into the trimmed pieces with the empty ones dropped. |
| Executor.Entries | src/App.tsx:282 | Cell `idx` is paired with `columns[idx]`, or with "undefined" past the column list. |
| Executor.Put | src/App.tsx:282 | Assigning a key keeps the key order, and a new key goes last. |
| Executor.FromEntries | src/App.tsx:282 | The built record has no repeated key, and its keys are exactly the entries' keys. |
| Executor.PutLookup | src/App.tsx:282 | After an assignment, that key reads the new value and every other key reads as before. |
| Executor.FromEntriesLookup | src/App.tsx:282 | Each key of the built record reads the last value given for it, and a key never given reads as `undefined`. |
| Executor.FromEntriesKeys | src/App.tsx:282 | With distinct keys, the record's keys are the entries' keys, in entry order. |
| Executor.LastValueDistinct | src/App.tsx:282 | With distinct keys, each key's last value is its own value. |
| Executor.MapRow | src/App.tsx:281-283 | The mapped record has no repeated key. Its keys are exactly the column names paired with some cell. |
| Executor.MapRowDistinct | src/App.tsx:281-283 | With distinct column names, a mapped row has exactly the columns, in order, and each column reads its own cell. |
| Executor.RowsOf | src/App.tsx:280-283 | No result set gives no rows. Otherwise there is one mapped record per value row of the first result set. |
| Executor.RunFrom | src/App.tsx:273-287 | A completed run keeps the rows gathered so far as a prefix of its rows. |
| Executor.Batch | src/App.tsx:273-287 | No statements give no rows on the same database. A failing first statement stops the batch with its message and the database as it was. |
| Executor.BatchCons | src/App.tsx:276-285 | An executed statement puts the mapped rows of its first result set (none without a result set) ahead of the rows of the rest of the batch, which runs on the database it left. A failing one stops the batch with its message. |
| Executor.BatchOne | src/App.tsx:276-285 | A single statement gives its failure, or the database it leaves and the mapped rows of its first result set. |
| Executor.RunFromAcc | src/App.tsx:273-287 | Rows gathered before a point only ever come first in the outcome. |
| Executor.BatchAppend | src/App.tsx:276-287 | Running two lists in sequence is running the first and, only if it succeeded, the second on the database it left. The first list's rows come first. |
| Executor.RunBatch | src/App.tsx:273-287 | The statement loop computes the batch outcome. |
| Merge.WordRun | src/App.tsx:140 | The length of the maximal run of `\w` characters at the start of a text. |
| Merge.NameAt | src/App.tsx:140 | The name is the slice of `\w` characters from the start position. It ends at the text's end or before a non-word character. |
| Merge.ExtractTableName | src/App.tsx:140 | A found name is a non-empty run of word characters. |
| Merge.ExtractTableNameNone | src/App.tsx:140 | No name is found exactly when `CREATE TABLE (\w+)` matches nowhere, in any case. |
| Merge.ExtractTableNameFound | src/App.tsx:140 | A found name is non-empty. It is the longest run of word characters right after the leftmost match. |
| Merge.ExtractDeclaredName | src/App.tsx:140 | A definition `CREATE TABLE name …` yields `name`. |
| Merge.InsertStatement | src/App.tsx:149-150 | When neither the table nor a column holds a `?`, the statement holds exactly one `?` per column. |
| Merge.PlaceholdersCount | src/App.tsx:150 | The placeholder list holds one `?` per column. |
| Merge.InsertStatementArity | src/App.tsx:149-150 | The insert binds one `?` per column, and its column list splits back into the columns. |
| Merge.CopyRows | src/App.tsx:151-161 | The inserted count grows by at most the number of rows. |
| Merge.CopyRowsOne | src/App.tsx:152-160 | A row whose insert runs is inserted and counted. A row whose insert throws is skipped, with the target and the count unchanged. |
| Merge.CopyRowsAppend | src/App.tsx:152-160 | Copying two row lists is copying the first, then the second on the database and count it left, so a rejected row never stops the rows after it. |
| Merge.CopyRowsAllRejected | src/App.tsx:152-160 | When every insert fails, the target and the count are unchanged. |
| Merge.CopyAll | src/App.tsx:151-161 | The copy loop computes `CopyRows`, and never counts more rows inserted than the source held. |
| Merge.MergeTable | src/App.tsx:136-171 | A failing definition aborts the merge. A definition with no table name copies nothing. A failing `SELECT *` on the source aborts, and a table without rows copies nothing. Otherwise every source row goes through the `INSERT OR IGNORE` statement, the table is read back, and the log records the name, the inserted count and the source row count. One definition copies at most one table, and never more rows than its source holds. |
| Merge.MergeTables | src/App.tsx:135-173 | The copy log only grows, by at most one entry per definition, and stays bounded. |
| Merge.MergeTablesAbort | src/App.tsx:135-173 | The first definition whose step fails makes the whole source fail with that step's message. |
| Merge.MergeSource | src/App.tsx:132-174 | One source's merge only extends the copy log and keeps it bounded. |
| Merge.MergeSources | src/App.tsx:131-175 | Merging the sources in order only extends the copy log and keeps it bounded. |
| Merge.Merged | src/App.tsx:126-178 | Starting from an empty database, no table records more inserted rows than its source held. No sources give the empty database. |
| Merge.MergedAborts | src/App.tsx:126-178 | A `CREATE TABLE` that fails on the merged database makes the whole merge fail with the engine's message. |
| Merge.MergeSourcesAppend | src/App.tsx:131-175 | Merging `first + second` is merging `first`, then, only if that succeeded, `second` into its result. |
| Merge.MergeTableInto | src/App.tsx:136-171 | The per-definition steps compute `MergeTable`. |
| Merge.MergeSourceInto | src/App.tsx:132-174 | The per-source loop computes `MergeSource`. |
| Merge.CombineDatabases | src/App.tsx:126-178 | The loop over the sources computes `Merged`. |
| Schema.Provenance | src/App.tsx:197-205 | Finds the least index whose database declares the table, or -1 when none does. A probe that throws aborts the search with its message, but only when no earlier database declared the table. |
| Schema.ResolveProvenance | src/App.tsx:197-205 | The loop with its early `break` computes `Provenance`. |
| Schema.TableId | src/App.tsx:208 | The id `${dbIndex}-${tableName}` reads back as the index and the name. |
| Schema.TableIdInjective | src/App.tsx:208 | Distinct (index, name) pairs give distinct ids. |
| Schema.ColumnsOf | src/App.tsx:190-194 | Each row of `PRAGMA table_info` becomes a column named by its cell 1 and typed by its cell 2. No result set gives no columns. |
| Schema.DescribeTable | src/App.tsx:189-213 | The described table keeps the catalog name and is collapsed. Its columns are those `PRAGMA table_info` returns on the merged database. It is attributed to the first database that declares it, or to "Unknown". |
| Schema.DescribeAll | src/App.tsx:187-215 | A successful snapshot has one table per catalog entry. |
| Schema.DescribeAllSound | src/App.tsx:187-215 | Each table of the snapshot describes the catalog entry at its own position. |
| Schema.SchemaOf | src/App.tsx:183-218 | A successful refresh ran the catalog query and has one table per catalog row. |
| Schema.SchemaSound | src/App.tsx:183-218 | The snapshot lists the catalog's tables in catalog order. Each is collapsed and attributed as above. |
| Schema.SchemaIdsDistinct | src/App.tsx:207-213 | Tables with different names have different ids. |
| Schema.DescribeOne | src/App.tsx:189-213 | The steps for one catalog entry compute `DescribeTable`. |
| Schema.RefreshSchema | src/App.tsx:183-218 | The catalog loop computes `SchemaOf`. |
| Storage.Cleared | src/App.tsx:114-115 | Both keys are removed and every other key is kept. |
| Storage.Read | src/App.tsx:61-77 | The load does nothing unless both keys hold non-empty text. A split that gives different counts is a mismatch. Otherwise there are as many images as names. |
| Storage.DecodedPieces | src/App.tsx:84-101 | One database per non-empty piece, decoded from it, in order. |
| Storage.DecodeFrom | src/App.tsx:84-101 | The loop succeeds exactly when every non-empty piece decodes, and then yields the databases found so far followed by the decoded pieces. Otherwise it fails at the first non-empty piece that does not decode, with a message naming that piece's database. |
| Storage.DecodeAll | src/App.tsx:84-101 | The load decodes exactly when every non-empty piece does, and yields the decoded pieces, never more than names. Otherwise it reports the first piece that fails. |
| Storage.DecodeStored | src/App.tsx:79-101 | The decoding loop computes `DecodeAll`. |
| Storage.ClearsStorage | src/App.tsx:107-116 | A message makes the load clear both keys exactly when it contains "Mismatch" or "Failed to decode" at some position, not only at its start. In particular, a message starting with either phrase clears them. |
| Storage.LoadFailuresClear | src/App.tsx:76-112 | Both messages the load throws, the mismatch and the decoding failure, clear the stored keys. |
| Storage.LoadStored | src/App.tsx:61-101 | The load finds nothing exactly when a key lacks text. A successful load gives the stored names and at most that many databases. |
| Storage.LoadPieces | src/App.tsx:61-101 | The read, split, compare and decode steps compute `LoadStored`. |
| Storage.LoadStoredFailureClears | src/App.tsx:107-116 | Every failure of the load's own steps removes both keys. |
| Storage.UploadStore | src/App.tsx:342-343 | The write as the code has it: the images of this upload only, but all the names. |
| Storage.UploadAfterUploadMismatch | src/App.tsx:322-343 | After a second upload the stored images and names differ in number, so the next load fails with the mismatch. |
| Storage.StoredImages | src/App.tsx:61-69 | The images already stored, or none when the key holds no text. |
| Storage.AppendStore | src/App.tsx:342-343 | The corrected write: the stored images followed by the new ones, and all the names. Other keys are kept. |
| Storage.StoredImagesAfterAppend | src/App.tsx:342 | What the corrected write stores is what the next upload finds. |
| Storage.AppendStoreRoundTrip | src/App.tsx:69-77 | With the corrected write, a load reads back every image beside its name, in upload order. Images and names must be non-empty and free of `\|`: a stronger demand than needed, since only `\|\|\|` breaks the split, but base64 text and file names meet it. |
| Storage.UploadTwiceRoundTrip | src/App.tsx:316-348 | Two uploads in a row with the corrected write, then a load, read back both uploads' images and names in step. It asks, as above, for non-empty pieces free of `\|`. |
| Export.Lookups | src/components/SqlAssistant.tsx:64-65 | One value per header, each read from the row under that header. |
| Export.Cells | src/components/SqlAssistant.tsx:66-67 | `null` and `undefined` give no text, and any other value gives its `toString()`. |
| Export.Quote | src/components/SqlAssistant.tsx:68 | The quoted text starts and ends with the quote, and its body reads back as the original text with nothing after it. |
| Export.QuotedRoundTrip | src/components/SqlAssistant.tsx:68 | A text with its quotes doubled, then closed, reads back as the text and what follows. |
| Export.QuoteRoundTrip | src/components/SqlAssistant.tsx:87 | A quoted text opens with the quote and reads back as the text. |
| Export.CsvFieldRoundTrip | src/components/SqlAssistant.tsx:64-68 | A CSV field reads back as the cell's text, or as nothing for a missing or null cell. |
| Export.CsvLineRoundTrip | src/components/SqlAssistant.tsx:63-69 | A CSV line reads back as the row's cells, in header order. |
| Export.Records | src/components/SqlAssistant.tsx:63-70 | One record of cells per row, in row order. |
| Export.CsvBodyRoundTrip | src/components/SqlAssistant.tsx:63-70 | The CSV body reads back as one record per row. |
| Text.JoinAvoids | src/components/SqlAssistant.tsx:62 | A character in no piece and not in the separator is not in the joined text. |
| Export.Csv | src/components/SqlAssistant.tsx:62-70 | When there is a header and no header holds a comma or a line feed, the CSV document reads back as the first row's keys and every row's cells. |
| Export.SqlValueRoundTrip | src/components/SqlAssistant.tsx:85-88 | An SQL literal reads back as the cell's text, or `NULL` as nothing. |
| Export.SqlValuesRoundTrip | src/components/SqlAssistant.tsx:84-89 | A `, `-separated value list reads back as the row's cells. |
| Export.InsertLineRoundTrip | src/components/SqlAssistant.tsx:90 | Each `INSERT` line starts with the fixed prefix, and its value list reads back as the row's cells. |
| Export.ColumnDefinitions | src/components/SqlAssistant.tsx:81 | Each header becomes `  header TEXT`, in order. |
| Export.CreateStatementColumns | src/components/SqlAssistant.tsx:80-82 | The column definitions split back on `,\n` into one definition per header. |
| Export.InsertLines | src/components/SqlAssistant.tsx:83-91 | One `INSERT` line per row, in row order. |
| Export.SqlScript | src/components/SqlAssistant.tsx:80-91 | The script starts with the table definition. After it, when no insert line holds a line feed, it splits at line feeds into one insert per row, in row order. |
| Export.Export | src/components/SqlAssistant.tsx:52-96 | Nothing is exported for no rows or an unknown format. JSON gives empty content. CSV and SQL give their documents. |
| Explorer.Flipped | src/components/SchemaExplorer.tsx:23-25 | The flag becomes true exactly when it was not true before (an absent flag counts as false), and nothing else of the table changes. |
| Explorer.Toggle | src/components/SchemaExplorer.tsx:21-27 | The toggled list has as many tables as before. |
| Explorer.ToggleEffect | src/components/SchemaExplorer.tsx:21-27 | Tables with the id have their flag negated (an absent flag counts as false) and everything else kept. Other tables are unchanged. |
| Explorer.ToggleUnknown | src/components/SchemaExplorer.tsx:21-27 | Toggling an id that no table has changes nothing. |
| Explorer.ToggleTwice | src/components/SchemaExplorer.tsx:21-27 | Toggling twice restores every table. A table without a flag comes back collapsed. |
| App.HistoryIdsDistinct | src/App.tsx:293-299 | In a numbered history no two entries share an id. |
| App.HistoryAppend | src/App.tsx:293-299 | Appending an entry with id `length + 1` keeps the history numbered. |
| App.HistoryAfter | src/App.tsx:290-299 | A successful run appends one entry, numbered one past the last, with the SQL and the row count, and keeps the earlier entries. A failed run keeps the history. Either way a numbered history stays numbered. |
| App.Generated | src/App.tsx:243-251 | The SQL shown after generation, cleaned by the client and then the application, is single-spaced, with no fence, note or comment. |
| App.Images | src/App.tsx:327-331 | The opened databases of the selected files, one per file, in order. |
| App.Names | src/App.tsx:332 | The files' names, one per file, in order. |
| App.Encoded | src/App.tsx:335-336 | The files' base64 images, one per file, in order. |
| App.Refresh | src/App.tsx:178-179 | The outcome is a merge failure exactly when the merge fails. A described outcome holds the schema read from the merged database. |
| App.RefreshSteps | src/App.tsx:178-179 | A failed merge keeps its message. Otherwise the merged database is the one read, and a failed read keeps the read's message. |
| App.RunRefresh | src/App.tsx:106 | The merge followed by the schema read computes `Refresh`. |
| App.Session.constructor | src/App.tsx:14-32 | A fresh page starts with empty state over whatever storage holds. |
| App.Session.ExecuteQuery | src/App.tsx:267-306 | Nothing happens without SQL or a database. Otherwise the database keeps every statement's changes. On success the rows become the result and one numbered entry is appended; on failure both are kept. No other state changes. |
| App.Session.ClearHistory | src/App.tsx:309-313 | The history and the result rows are emptied, nothing else is touched, and the session stays well formed. |
| App.Session.Reset | src/App.tsx:356-368 | Prompt, SQL, result, error, databases, names and tables are cleared, and both keys are removed. The history is kept. |
| App.Session.GenerateSql | src/App.tsx:228-264 | The prompt is recorded. A missing API key or a failed service sets the error and leaves no SQL. Otherwise the cleaned completion becomes the SQL. |
| App.Session.UploadFiles | src/App.tsx:316-353 | An empty selection or a file that does not open changes nothing. Otherwise the databases and names are appended, stored and merged, and the schema is read with provenance probed in the databases open before. |
| App.Session.LoadFromStorage | src/App.tsx:58-123 | Nothing stored changes nothing. A failed load step clears the keys. Otherwise the decoded databases and names are installed, merged and described. |
| App.Session.Install | src/App.tsx:104-106 | The databases and names are set. The merged database, the tables and the tree's copy follow the refresh outcome, and the keys are cleared when the load's failure says so. |
| App.Session.ToggleTable | src/components/SchemaExplorer.tsx:16-27 | Only the tree's copy of the tables changes, toggled as `Explorer.Toggle`. |

## Left out

- The network call to the language-model service, including the request, the system prompt with the schema JSON, and the HTTP error path, is not modelled. `App.Session.GenerateSql` takes its reply as a parameter, which is either a failure message or the completion's `content`, possibly absent.
- `atob`, `file.arrayBuffer()`, `btoa` and `new SQL.Database(bytes)` are not modelled. A decoding function is a parameter of the load. Each upload carries its opened database (or the reason it does not open) and its base64 text.
- sql.js is an oracle (`Engine.Engine`). What a statement does to a database is not modelled; that includes how SQLite handles a duplicate `CREATE TABLE` during the merge.
- The clock and `Math.random` are not modelled: the timestamp and the execution-time text are parameters of `App.Session.ExecuteQuery`.
- Notifications, `setTimeout`, console output, `isLoading`, the clipboard copy and the Blob download are not modelled. They change no modelled state.
- `handleGeneratedSqlChange` and the assistant's own reset are not modelled: they only set the SQL and the error from user input.
- The `async` interleaving of the handlers is not modelled. Each handler runs to completion.
- Types.Lookup: reads every key the record does not hold as `undefined`. In JavaScript, names inherited from `Object.prototype` (`constructor`, `toString`, `valueOf`, `__proto__`, …) read as the inherited members. The source therefore exports a result column with such a name differently from the model.
- Types.Keys: follows insertion order. `Object.keys` puts integer-like keys first, in numeric order; that is not modelled.
- Engine.CellText: reads a non-null cell as the text its `toString()` gives and a missing or null cell as the empty text. The source uses `row[0] as string` unchanged.
- Export.Export: the `json` branch writes empty content, as the source does; no JSON is produced.
- App.Session.UploadFiles: writes the corrected image list (`Storage.AppendStore`) rather than the code's (`Storage.UploadStore`). See Findings.

## Findings

| source | as written | input that shows it | evidently intended | confidence | as-written member | corrected member |
|---|---|---|---|---|---|---|
| src/App.tsx:342-343 | After an upload, storage holds the base64 images of this upload's files only, but the names of every database open. | Upload one file, then upload a second file. Storage then holds one image and two names. The next page load throws the mismatch error and removes both keys, so both databases are lost. | Store the images of every database open, in step with the names. | high (not executed) | Storage.UploadAfterUploadMismatch | Storage.UploadTwiceRoundTrip |
