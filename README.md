# CSV-to-MySQL ingestion engine

A Dafny model of the ingestion engine shared by `daily.py` and `historical.py`. Both scripts load UTF-16 CSV exports into one MySQL table, `sfmc_data_extension_item`. Each file goes through the same steps:

1. The raw header is de-duplicated after strip and casefold (`dedup_case_insensitive`).
2. Every missing column is added with `ALTER TABLE`; error 1060 counts as success (`check_and_create_columns`).
3. The data rows are cut into batches of 25,000 (`chunked`).
4. Each row is projected through the header's index map and tagged with the file's stem as `CustomerKey`; rows shorter than the header are dropped.
5. Each batch is inserted with one `INSERT ... VALUES (%s, ...)` (`build_insert`). A partial commit follows once 50,000 rows are pending, and a final commit follows the loop.
6. A rejected batch is written to a quarantine file (the columns and its first 50 tuples), the transaction is rolled back and the error re-raised.

The two drivers differ:
- `daily.py`'s `main` loads every file and carries on after a failed one.
- `historical.py`'s `main` filters an SFTP listing with `fnmatch(name, "*_Historical*.csv")`. For each match it downloads a temporary copy, loads it and deletes the copy whatever happened. A failed download or load ends the run.

The model is organised by module:
- `Base`: shared values. These are rows, the exceptions the engine raises, the per-file `Outcome`, and the file record with its CustomerKey (`Stem`, like pathlib's `PurePath.stem`).
- `Text`: `str.strip()`, with Python's exact `isspace` set, and `str.casefold()` on ASCII.
- `Header`: the reference function `Normalize` and the imperative `Dedup` loop proved equal to it.
- `Batching`: the reference `Chunks` and the `Chunked` loop, plus the projection and filter of a batch (`Prepare`).
- `Sql`: `BuildInsert` and what can be read back from its text.
- `Db`: the server as three classes:
  - `Table`: the columns and the committed rows;
  - `Pool`: the number of idle connections;
  - `Connection`: the rows pending in the open transaction, whether it is checked out, and its open cursors.
- `Schema`: the reference function `Sync` and the `CheckAndCreateColumns` loop.
- `Loader`: the guarded `load_csv` of `historical.py`. It includes:
  - the loop-state functions `Step`/`Run`;
  - the whole-file reference `Expected`;
  - the methods (`LoadCsv` down to `InsertOne`), each proved to leave the table, quarantine directory and connection as `Expected` says.
- `LoaderFacts`: what `Run` and `Expected` promise (counters, commit points, failures, quarantine, tuple shape).
- `Daily`: `daily.py`'s own `load_csv` as written, with the connection leak it causes; `main`'s per-file loop run over the guarded load (`Loader.LoadCsv`); and the reference `DailyRun`.
- `Pattern`: an `fnmatch` matcher for patterns made of `*` and literals, and its meaning for `*_Historical*.csv`.
- `Historical`: the temporary directory, `download_file`, and `historical.py`'s `main`, with the reference `HistRun`.

The server's answers (error numbers for an ALTER or for a batch insert), a locked or interrupted download, and a failing unlink are parameters of the model. The same holds for the remote listing and the files' contents.

`daily.py` and `historical.py` repeat `chunked`, `build_insert`, `dedup_case_insensitive` and `check_and_create_columns` line for line. Rows that model these cite `daily.py`; the same statements hold for the copies at `historical.py:122-133` and `historical.py:143-172`. The `get_pool` between them (`historical.py:136-140`) is not a copy of `daily.py`'s and is left out like it. The two `load_csv`s differ only in `daily.py`'s unguarded cleanup, which `## Findings` describes; rows for the shared batch loop cite `historical.py`.

## Model

| member | source | states |
|---|---|---|
| Base.Stem | daily.py:105 | The CustomerKey is the file name cut at its last dot when that dot is neither the first nor the last character, and the whole name otherwise |
| Base.StemOfSuffix | daily.py:105 | Only the last suffix is removed: for a non-empty `base` and a non-empty extension without a dot, the key of `base.ext` is `base` |
| Base.StemOfCsv | daily.py:105 | The key of a file named `base.csv` is `base` |
| Text.StripSpec | daily.py:74 | `strip()` removes only white space and only at the ends; what it keeps is a contiguous slice that neither starts nor ends with white space |
| Text.StripLeftSpec | daily.py:74 | Stripping the left end drops a white-space prefix and leaves a suffix that is empty or starts with a non-space |
| Text.StripRightSpec | daily.py:74 | Stripping the right end drops a white-space suffix and leaves a prefix that is empty or ends with a non-space |
| Text.StripFixed | daily.py:77 | A name that neither starts nor ends with white space is its own strip |
| Text.StripIdempotent | daily.py:77 | A stored stripped name is its own strip |
| Text.NormOfStrip | daily.py:74-77 | A stored (stripped) name has the same comparison key as the raw column |
| Header.Normalize | daily.py:70-79 | `unique` and `pos_map` have equal length, at most the header's; every position is a raw index; `unique[k]` is the stripped raw column `pos_map[k]` |
| Header.Dedup | daily.py:70-79 | The loop with its `seen` set returns exactly `Normalize(raw)` |
| Header.NormalizeIncreasing | daily.py:73-78 | `pos_map` is strictly increasing |
| Header.NormalizeUnique | daily.py:74-78 | No two kept names have the same strip-and-casefold key |
| Header.NormalizeCovers | daily.py:74-78 | The keys of the kept names are exactly the keys of the raw header |
| Header.NormalizeFirstOccurrence | daily.py:75-78 | Raw column i is kept if and only if no earlier column has its key |
| Header.NormalizeDistinct | daily.py:71-78 | A header without duplicates comes back stripped, with `pos_map == [0..n-1]` |
| Header.FirstWins | daily.py:75-78 | Of two columns with one key the first is kept; a third column with a new key follows it |
| Header.ScenarioEmail | daily.py:71-78 | `["Email", "Email ", "Name"]` normalises to `["Email", "Name"]` with positions `[0, 2]` |
| Batching.ChunksFlatten | daily.py:49-55 | For a positive size, the batches concatenate back to the input |
| Batching.ChunksSizes | daily.py:49-55 | Every batch holds 1..size items and all but the last exactly size |
| Batching.ChunksSpec | daily.py:49-55 | The batches partition the input in order, each of 1..size items, all but the last full; size 0 yields nothing |
| Batching.Chunked | daily.py:49-55 | The `islice` loop yields exactly `Chunks(xs, size)` |
| Batching.ChunksSixtyThousand | daily.py:49-55 | 60,000 rows in batches of 25,000 are batches of 25,000, 25,000 and 10,000 |
| Batching.Project | daily.py:127 | A tuple has one field per kept column plus the key |
| Batching.Prepare | daily.py:126-130 | A batch yields at most as many tuples as it has rows |
| Batching.PrepareSpec | daily.py:126-130 | Every tuple ends with the key and projects a row at least as wide as the header; every such row yields its tuple; no shorter row yields one |
| Batching.PrepareAppend | daily.py:126-130 | Preparing batch by batch and preparing the whole stream give the same tuples |
| Batching.PrepareAllFlatten | daily.py:125-130 | Chunking changes neither which tuples are produced nor their order |
| Sql.SplitJoin | daily.py:60 | Splitting `", ".join(cols)` at ", " gives back `cols` when no name holds a comma |
| Sql.PlaceholdersCount | daily.py:59 | The placeholder list holds exactly n `%` signs |
| Sql.PlaceholdersSplit | daily.py:59 | For n >= 1 (the statement always has the key column), the placeholder list reads back as n `%s` items |
| Sql.BuildInsertColumns | daily.py:58-60 | For a non-empty list of names without a comma, the statement starts `INSERT INTO sfmc_data_extension_item (` followed by the columns in their given order |
| Sql.BuildInsertPlaceholders | daily.py:58-60 | With no `%` in any column name, the statement has exactly one placeholder per column |
| Db.Pool.GetConnection | daily.py:110 | With an idle connection, a fresh open session with nothing pending and one fewer idle; otherwise no connection, and the pool unchanged |
| Db.Connection.OpenCursor | daily.py:123 | One more open cursor; nothing else changes |
| Db.Connection.CloseCursor | daily.py:178 | One fewer open cursor; nothing else changes |
| Db.Connection.ShowColumns | daily.py:85-86 | The table's column names |
| Db.Connection.AddColumn | daily.py:91-97 | A name present under casefold gives 1060 and no change; otherwise the server's answer is returned, and the column is added on success or 1060 |
| Db.Connection.ExecuteMany | daily.py:135 | The batch joins the open transaction, or is rejected whole with the server's error |
| Db.Connection.Commit | daily.py:166 | The pending rows are appended to the table and nothing stays pending |
| Db.Connection.Rollback | daily.py:153 | Nothing stays pending; the table is untouched |
| Db.Connection.IsConnected | historical.py:236 | Whether the session is still checked out |
| Db.Connection.Close | daily.py:179 | The session is reset (pending rows dropped) and given back to the pool once |
| Schema.SyncSticky | daily.py:96-97 | After an error other than 1060 no later column is tried |
| Schema.CheckAndCreateColumns | daily.py:82-100 | The table ends with `Sync`'s columns. A clean run commits; an error is the first non-1060 answer; the temporary cursor is closed on both paths |
| Schema.SyncGrows | daily.py:87-92 | Columns are only appended, never removed or reordered, and each added one is required |
| Schema.SyncCovers | daily.py:87-97 | After a clean run every required column is present, compared under casefold |
| Schema.SyncNoAlter | daily.py:88-89 | When every column is already present no ALTER is issued, whatever the server would answer |
| Schema.SyncIdempotent | daily.py:82-100 | After a run without error, a second run with the same columns changes nothing and cannot fail |
| Schema.SyncError | daily.py:93-97 | An error is a required, still missing column's answer other than 1060, and the columns added before it stay |
| Schema.SyncDuplicateIsSuccess | daily.py:94-95 | Answering 1060 to an ALTER has the same effect as the ALTER succeeding |
| Loader.QuarantineDir.Write | historical.py:216-220 | The quarantine file of that name is (re)written; no other file changes |
| Loader.RunSticky | historical.py:222-223 | After a failed batch the loop state no longer changes |
| Loader.InsertBatch | historical.py:205-232 | `executemany`, the counters and the partial commit perform one `Step` on the connection and the table |
| Loader.InsertOne | historical.py:198-232 | One loop iteration. It skips an empty batch and performs `Step` on a good one. A rejected batch is quarantined before the rollback, and the load then ends as `AfterBatches` says |
| Loader.InsertBatches | historical.py:195-234 | The loop and the final commit leave the table and quarantine as `AfterBatches(Run(batches))` says, with nothing pending |
| Loader.Ingest | historical.py:187-234 | The `try` body leaves the table, the quarantine directory and the outcome as `Expected` says; the insert cursor is opened exactly when a header exists and the schema step succeeds |
| Loader.LoadWithHeader | historical.py:191-234 | A schema error ends the load before the cursor is opened; otherwise the batches are loaded |
| Loader.LoadRows | historical.py:194-234 | The insert cursor, `chunked` and the batch loop perform `AfterBatches(Run(...))` |
| Loader.Finish | historical.py:235-243 | A failure rolls back while connected (after a rejected batch this second rollback finds nothing pending); the cursor is closed only if it was opened; the connection always goes back to the pool |
| Loader.LoadCsv | historical.py:180-244 | On every exit path the connection is closed and returned and no cursor stays open. The table, quarantine and outcome are `Expected`'s, or `PoolExhausted` with nothing changed |
| LoaderFacts.RunCounters | historical.py:224-232 | `pending` counts the rows since the last commit and is below COMMIT_INT after each threshold check; `total` counts every inserted row |
| LoaderFacts.RunCommitPoint | historical.py:229-233 | Without a failure the committed rows are the whole batches before the last partial commit c, the rest are pending, and nothing was committed after batch c |
| LoaderFacts.RunCommittedGrows | historical.py:229-232 | Rows committed by a partial commit are never taken back: what is committed after any m batches is a prefix of what is committed at the end |
| LoaderFacts.RunFailureCommits | historical.py:222-232 | After a rejected batch k the committed rows are the whole batches before the last partial commit c before k, nothing was committed between c and k, and no earlier commit is lost |
| LoaderFacts.RunInserted | historical.py:197-232 | Without a failure every prepared tuple has been inserted, in order |
| LoaderFacts.RunClean | historical.py:203-223 | The loop runs to the end if and only if no non-empty batch is rejected |
| LoaderFacts.RunFailure | historical.py:203-223 | A failure is the first rejected non-empty batch; the state is the one after the batches before it |
| LoaderFacts.RunSixtyThousand | historical.py:224-233 | 60,000 rows: three inserts, a partial commit of 50,000 after the second, 10,000 left for the final commit |
| LoaderFacts.RunSixtyThousandThirdFails | historical.py:205-232 | The same stream with batch 3 rejected keeps the 50,000 committed rows and quarantines 50 tuples of batch 3 |
| LoaderFacts.TuplesFlatten | historical.py:197-202 | A file's batched tuples are its prepared rows, in order |
| LoaderFacts.LoadedSuccess | historical.py:193-234 | The load succeeds if and only if the schema step succeeds and no non-empty batch is rejected. Then every tuple is committed in order, nothing is quarantined, and the total is the number committed |
| LoaderFacts.LoadedBatchFailure | historical.py:205-232 | A rejected batch k leaves a quarantine file `{key}_batch{k}` with the columns and its first min(50, n) tuples, and re-raises the error. The rows committed are the whole batches before the last partial commit before k, and every row committed at any point of the loop is still committed |
| LoaderFacts.LoadedSent | historical.py:197-223 | Every tuple committed or quarantined is a prepared tuple |
| LoaderFacts.ExpectedSuccess | historical.py:187-234 | A file loads completely if and only if no step fails; then every row at least as wide as the header is committed, projected, in file order |
| LoaderFacts.ExpectedSchemaFailure | historical.py:193 | A schema error commits nothing, writes no quarantine file and is a non-1060 answer to a required column |
| LoaderFacts.ExpectedTuples | historical.py:197-202 | Every tuple sent has one field per column and ends with the file's CustomerKey; it projects a data row at least as wide as the header |
| LoaderFacts.TupleFillsInsert | historical.py:194-206 | Each tuple sent has one field per item of the placeholder list; when no column name contains `%`, that is one per `%` of the statement |
| Daily.LoadCsvAsWritten | daily.py:104-180 | Before `cur` is bound, the outcome is the unbound cursor, whatever failed, and the connection stays checked out. Otherwise the load is as `Expected` says |
| Daily.FinishAsWritten | daily.py:173-179 | `except` rolls back unconditionally; `finally` raises at `cur.close()` when `cur` is unbound, so `close()` runs only once the cursor exists |
| Daily.EmptyFileLeaksConnection | daily.py:110-179 | An empty file on a pool of one: as written the error is the unbound cursor and the pool is left empty; the guarded load reports the missing header and returns the connection |
| Daily.LeakStarvesLaterFiles | daily.py:110 | After the leak on a pool of one, every later file of the run is refused with the pool exhausted |
| Daily.DailyRun | daily.py:190-194 | One outcome per file |
| Daily.Daily | daily.py:184-194 | `main`'s per-file loop, run over the guarded load `Loader.LoadCsv`, leaves the table, the quarantine directory and the outcomes as `DailyRun` says, and the pool as it was. With `daily.py`'s own `load_csv` the pool is not kept: see `Daily.LeakStarvesLaterFiles` |
| Daily.DailyIsolation | daily.py:190-194 | File i's outcome is its own load against the state the earlier files left, whatever their outcomes |
| Daily.DailyExhausted | daily.py:110 | Without a free connection every file fails on `get_connection` and nothing changes |
| Daily.LoadOneRows | historical.py:197-233 | Every row one load commits is a tuple of that file |
| Daily.DailyRows | daily.py:184-194 | The run only appends to the table, and every appended row is a tuple of one of the files |
| Pattern.GlobLiteral | historical.py:274 | A literal piece of the pattern matches exactly the same characters |
| Pattern.GlobStar | historical.py:274 | `*` matches any run of characters, the empty one included |
| Pattern.GlobExact | historical.py:274 | A pattern without `*` matches only itself |
| Pattern.GlobTail | historical.py:274 | `*` and a literal match exactly the strings ending in that literal |
| Pattern.GlobMidMatch | historical.py:274 | A match of literal, `*`, literal starts with the first literal and ends with the second, without overlap |
| Pattern.GlobMidBuild | historical.py:274 | Any such string matches |
| Pattern.GlobMid | historical.py:274 | Both directions together |
| Pattern.GlobAt | historical.py:274 | The pattern after its leading `*` matches from k exactly when the marker starts at k and the name ends in `.csv` after it |
| Pattern.GlobHistorical | historical.py:271-275 | `fnmatch(name, "*_Historical*.csv")` holds if and only if the name ends in `.csv` and `_Historical` occurs before that suffix |
| Pattern.HistoricalName | historical.py:46 | Any text, `_Historical`, any text and `.csv` make a matching name |
| Pattern.GlobExampleMatch | historical.py:46 | `Vendas_Historical_2024.csv` matches |
| Pattern.GlobExampleReject | historical.py:46 | `Vendas_Historical.txt` does not |
| Historical.FetchSpec | historical.py:104-114 | A successful download makes the local copy the remote content. A locked old copy gives PermissionError and stays as it was; an interrupted transfer fails. No other local file changes |
| Historical.TempDir.Download | historical.py:104-114 | The old copy is unlinked and the file fetched, as `Fetch` says |
| Historical.TempDir.Unlink | historical.py:288-292 | The copy is removed, or, when the unlink fails, the error is swallowed and nothing changes |
| Historical.MatchingSpec | historical.py:271-275 | The filtered listing holds exactly the listed entries whose names match |
| Historical.Process | historical.py:280-292 | One iteration. A failed download stops before any load. Otherwise it loads the local copy, always unlinks it, and records the outcome; a load error ends the run. The result is one `HistStep` |
| Historical.LoadAll | historical.py:280-292 | The loop, stopping at the first exception, leaves everything as `HistRun` says |
| Historical.Backfill | historical.py:269-292 | `main` on the listing is `HistRun` over the matching entries, on the same pool |
| Historical.HistStop | historical.py:280-292 | Once the run has ended, the remaining items are not touched |
| Historical.HistAbort | historical.py:284-292 | Every load before the last one succeeded. The run covers every item only when nothing failed, and a failed load's exception is the run's |
| Historical.HistStepKeepsAbsent | historical.py:281-290 | Handling another file never brings back a deleted copy |
| Historical.HistStepRemoves | historical.py:288-292 | After a successful download the copy is deleted whether the load succeeded or failed, unless the unlink fails |
| Historical.HistRunSplit | historical.py:280 | Running the items from the state a prefix of them left is running them all |
| Historical.HistKeepsAbsent | historical.py:280-292 | Files with other names never bring back a deleted copy |
| Historical.HistRemovesCopies | historical.py:288-292 | A file's temporary copy is gone after the run, however its load ended, unless its unlink fails or a later item has the same name |
| Historical.HistDownloadFailure | historical.py:283 | A failed download ends the run with its exception; the database and the outcomes stay as the earlier files left them |
| Historical.HistNoMatch | historical.py:276-278 | A listing without a matching name changes nothing |

## Left out

- Text.Casefold: folds the 26 ASCII capitals only, not the full Unicode `str.casefold()`, because Dafny has no Unicode case tables. Strip does use Python's exact white-space set.
- UTF-16 decoding and CSV parsing by `csv.reader`: a file is given as its parsed lines, header first.
- JSON serialisation of the quarantine file: the file is the record `{header, rows}` under its name `{key}_batch{n}.json`.
- Logging, the module-level configuration and the directory creation: they do not affect the data.
- Sql.BuildInsertColumns: a column name holding a comma (a header cell such as `City, State`, which the ALTER accepts between backquotes) cannot be read back from the statement text, because `build_insert` joins the names unquoted with ", ".
- `get_pool`: the pool is given with its table and number of connections. Credentials and timeouts are not modelled.
- The SSH/SFTP session, `list_dir`, `_progress`, `_fmt_size` and `ftp.py`: these are network I/O and display. The remote listing and each file's content are inputs.
- `sftp.get` partial writes: an interrupted transfer leaves a given partial copy. The content is not derived from the transfer.
- `daily.py`'s `sorted(CSV_DIR.glob(PATTERN))`: the sorted file list is an input, since the glob and the sort are library calls on the file system.
- `fnmatch`'s case folding on Windows (`os.path.normcase`): the matcher compares characters as they are, which is the POSIX behaviour.
- The SQL text is not parsed by the server model: `ExecuteMany` does not read its statement. A column name that breaks the statement, or duplicate names that the server rejects, appears only as the server's answer.
- Loss of the connection in the middle of a load: `is_connected()` is true while a session is checked out.
- Errors raised by `commit`, `rollback`, `close` or the quarantine write: the model lets only `ALTER` and `executemany` fail, besides the missing header, the pool and the download.
- The laziness of `chunked`'s generator: the batches are computed from the whole row list, which gives the same sequence.
- A leaked connection being reclaimed when Python collects it: the model keeps it checked out.
- Db.Connection.AddColumn: does not model MySQL's implicit commit of pending rows before an `ALTER TABLE`, because `check_and_create_columns` runs right after `get_connection`, when nothing is pending.
- `Pool.GetConnection` failing is modelled only as exhaustion (`PoolExhausted`), not as a network error.

## Findings

| source | as written | input that shows it | evidently intended | confidence | as-written member | corrected member |
|---|---|---|---|---|---|---|
| daily.py:177-179 | The `finally` calls `cur.close()`, but `cur` is first bound at daily.py:123. A file without a header, or a schema error, makes it raise UnboundLocalError, which replaces the real exception, and `conn.close()` never runs, so the pooled connection leaks. After as many failures as the pool has connections, every later file fails on `get_connection` | An empty file `clientes.csv` on a pool of one connection: the error is the unbound cursor and no idle connection remains (EmptyFileLeaksConnection, LeakStarvesLaterFiles) | Close the cursor only if it was opened and always close the connection, as historical.py:186 and 241-243 do | not executed | Daily.LoadCsvAsWritten | Loader.LoadCsv |
