/** The per-file loader (load_csv): normalise the header, synchronise the
    schema, then insert the rows batch by batch with a partial commit every
    COMMIT_INT rows and a final commit; a rejected batch is quarantined and the
    transaction rolled back. This is the guarded form of historical.py, which
    closes the cursor only when it was opened and checks the connection before
    rolling back. */
module Loader {
  import opened Base
  import opened Text
  import opened Header
  import opened Batching
  import opened Sql
  import opened Db
  import opened Schema

  const BATCH_SIZE := 25000
  const COMMIT_INT := 50000
  const KEY_COLUMN := "CustomerKey"
  /** Rows of a rejected batch kept in its quarantine file. */
  const SAMPLE := 50

  /** The server's answers: the error number for an ALTER of a column name, and
      for the insert of a batch by its 1-based batch number. A missing entry
      means success. */
  datatype Faults = Faults(alter: map<string, int>, insert: map<nat, int>)

  /** `{key}_batch{batchNo}.json` in the quarantine directory. */
  datatype QuarantineName = QuarantineName(key: string, batchNo: nat)
  /** Its JSON content: {"header": cols, "rows": dados[:50]}. */
  datatype QuarantineFile = QuarantineFile(header: seq<string>, rows: seq<Row>)
  datatype Quarantined = Quarantined(name: QuarantineName, file: QuarantineFile)

  /** The quarantine directory; writing a file replaces one of the same name. */
  class QuarantineDir {
    var files: map<QuarantineName, QuarantineFile>

    constructor ()
      ensures files == map[]
    {
      files := map[];
    }

    method Write(name: QuarantineName, file: QuarantineFile)
      modifies this
      ensures files == old(files)[name := file]
    {
      files := files[name := file];
    }
  }

  function Quarantine(files: map<QuarantineName, QuarantineFile>, q: Option<Quarantined>): map<QuarantineName, QuarantineFile>
  {
    if q.Some? then files[q.value.name := q.value.file] else files
  }

  /** The CustomerKey of a file: its stem. */
  function KeyOf(file: CsvFile): string
  {
    Stem(file.name)
  }

  function HeaderOf(file: CsvFile): NormalizedHeader
    requires file.lines != []
  {
    Normalize(file.lines[0])
  }

  /** header + ["CustomerKey"] */
  function ColumnsOf(file: CsvFile): seq<string>
    requires file.lines != []
  {
    HeaderOf(file).names + [KEY_COLUMN]
  }

  /** The insert tuples of each batch of data rows, in batch order. */
  function TuplesOf(file: CsvFile): seq<seq<Row>>
    requires file.lines != []
  {
    var h := HeaderOf(file);
    PrepareAll(Chunks(file.lines[1..], BATCH_SIZE), |file.lines[0]|, h.indexMap, KeyOf(file))
  }

  datatype BatchFailure = BatchFailure(batchNo: nat, errno: int, rows: seq<Row>)

  /** State of the batch loop: the `total` and `pending` counters, the rows
      committed so far, the rows inserted since the last commit, and the batch
      whose insert failed, if any. */
  datatype Progress = Progress(total: nat, pending: nat, committed: seq<Row>, uncommitted: seq<Row>, failure: Option<BatchFailure>)

  /** One iteration of the batch loop on the prepared batch `d` numbered
      `batchNo`: an empty batch is skipped; a batch whose number is in `faults`
      fails and ends the loop; otherwise its rows are inserted and, once
      `pending` reaches COMMIT_INT, committed. */
  function Step(p: Progress, d: seq<Row>, batchNo: nat, faults: map<nat, int>): Progress
  {
    if p.failure.Some? || d == [] then p
    else if batchNo in faults then p.(failure := Some(BatchFailure(batchNo, faults[batchNo], d)))
    else if p.pending + |d| >= COMMIT_INT then
      Progress(p.total + |d|, 0, p.committed + p.uncommitted + d, [], None)
    else
      Progress(p.total + |d|, p.pending + |d|, p.committed, p.uncommitted + d, None)
  }

  /** Reference definition of the batch loop over the prepared batches `ds`. */
  function Run(ds: seq<seq<Row>>, faults: map<nat, int>): Progress
    decreases |ds|
  {
    if ds == [] then Progress(0, 0, [], [], None)
    else Step(Run(ds[..|ds| - 1], faults), ds[|ds| - 1], |ds|, faults)
  }

  lemma RunSnoc(ds: seq<seq<Row>>, faults: map<nat, int>, j: nat)
    requires j < |ds|
    ensures Run(ds[..j + 1], faults) == Step(Run(ds[..j], faults), ds[j], j + 1, faults)
  {
    assert ds[..j + 1][..j] == ds[..j];
  }

  /** What loading one file does: the table's columns afterwards, the rows it
      commits, the quarantine file it writes and how the call ends. */
  datatype Effect = Effect(columns: seq<string>, committed: seq<Row>, quarantined: Option<Quarantined>, outcome: Outcome)

  /** How the batch loop ends, given its final state `p`: a failed batch is
      quarantined ({"header": cols, "rows": its first SAMPLE tuples}) and only
      the partial commits before it stay; otherwise the final commit stores the
      rest and the call returns `total`. */
  function AfterBatches(columns: seq<string>, p: Progress, key: string, cols: seq<string>): Effect
  {
    match p.failure
    case Some(f) =>
      var sample := f.rows[..Min(SAMPLE, |f.rows|)];
      Effect(columns, p.committed,
             Some(Quarantined(QuarantineName(key, f.batchNo), QuarantineFile(cols, sample))),
             Err(DbError(f.errno)))
    case None => Effect(columns, p.committed + p.uncommitted, None, Ok(p.total))
  }

  /** Reference definition of load_csv against a table with `columns`: an
      empty file has no header; otherwise the load goes on with the header's
      columns and the prepared batches of the data rows. */
  function Expected(file: CsvFile, faults: Faults, columns: seq<string>): Effect
  {
    if file.lines == [] then Effect(columns, [], None, Err(NoHeader))
    else WithHeader(columns, ColumnsOf(file), TuplesOf(file), KeyOf(file), faults)
  }

  /** The load once the header is read, with `cols` to create and `ds` the
      prepared batches: a schema error ends it before any insert. */
  function WithHeader(columns: seq<string>, cols: seq<string>, ds: seq<seq<Row>>, key: string, faults: Faults): Effect
  {
    var s := Sync(columns, cols, faults.alter);
    if s.error.Some? then Effect(s.columns, [], None, Err(DbError(s.error.value)))
    else AfterBatches(s.columns, Run(ds, faults.insert), key, cols)
  }

  /** The state after effect `e`: the table's columns and rows and the
      quarantine directory, from the rows and files before. */
  predicate Applied(e: Effect, columns: seq<string>, rows: seq<Row>, files: map<QuarantineName, QuarantineFile>,
                    outcome: Outcome, rows0: seq<Row>, files0: map<QuarantineName, QuarantineFile>)
  {
    columns == e.columns && rows == rows0 + e.committed
    && files == Quarantine(files0, e.quarantined) && outcome == e.outcome
  }

  /** Once a batch has failed, the loop state no longer changes. */
  lemma {:induction false} RunSticky(ds: seq<seq<Row>>, faults: map<nat, int>, j: nat)
    requires j <= |ds|
    requires Run(ds[..j], faults).failure.Some?
    ensures Run(ds, faults) == Run(ds[..j], faults)
    decreases |ds|
  {
    if j < |ds| {
      var p := ds[..|ds| - 1];
      assert p[..j] == ds[..j];
      RunSticky(p, faults, j);
    } else {
      assert ds[..j] == ds;
    }
  }

  /** One non-empty batch: executemany, the two counters and the partial
      commit, from the loop state `p` of the batches before it. */
  method InsertBatch(conn: Connection, sql: string, dados: seq<Row>, batchNo: nat, faults: map<nat, int>,
                     total: nat, pending: nat, ghost p: Progress, ghost base: seq<Row>)
    returns (newTotal: nat, newPending: nat, err: Option<int>)
    requires dados != [] && p.failure.None? && p.total == total && p.pending == pending
    requires p.uncommitted == conn.pending && conn.pool.table.rows == base + p.committed
    modifies conn, conn.pool.table
    ensures var q := Step(p, dados, batchNo, faults);
      && (err.Some? <==> q.failure.Some?)
      && (err.Some? ==> batchNo in faults && err.value == faults[batchNo])
      && (err.Some? ==> conn.pending == old(conn.pending) && conn.pool.table.rows == old(conn.pool.table.rows))
      && (err.None? ==> q.total == newTotal && q.pending == newPending
                        && q.uncommitted == conn.pending && conn.pool.table.rows == base + q.committed)
    ensures conn.pool.table.columns == old(conn.pool.table.columns)
    ensures conn.open == old(conn.open) && conn.cursors == old(conn.cursors)
  {
    newTotal, newPending := total, pending;
    err := conn.ExecuteMany(sql, dados, Lookup(faults, batchNo));
    if err.None? {
      newTotal := total + |dados|;
      newPending := pending + |dados|;
      if newPending >= COMMIT_INT {
        conn.Commit();
        newPending := 0;
      }
    }
  }

  /** The loop state `p` describes the counters, the rows pending on the
      connection and the rows committed to the table since `rows0`. */
  predicate Tracks(p: Progress, total: nat, pending: nat, uncommitted: seq<Row>, rows: seq<Row>, rows0: seq<Row>)
  {
    p.failure.None? && p.total == total && p.pending == pending
    && p.uncommitted == uncommitted && rows == rows0 + p.committed
  }

  /** One iteration of the batch loop, on batch j + 1 whose prepared tuples
      are `dados`: an empty batch is skipped; a rejected one is quarantined
      and the transaction rolled back, which ends the load as AfterBatches
      says. */
  method InsertOne(conn: Connection, quar: QuarantineDir, dados: seq<Row>, j: nat, key: string,
                   cols: seq<string>, sql: string, faults: map<nat, int>, total: nat, pending: nat,
                   ghost ds: seq<seq<Row>>, ghost rows0: seq<Row>)
    returns (newTotal: nat, newPending: nat, err: Option<int>)
    requires j < |ds| && ds[j] == dados
    requires Tracks(Run(ds[..j], faults), total, pending, conn.pending, conn.pool.table.rows, rows0)
    modifies conn, conn.pool.table, quar
    ensures err.None? ==> Tracks(Run(ds[..j + 1], faults), newTotal, newPending, conn.pending, conn.pool.table.rows, rows0)
                          && quar.files == old(quar.files)
    ensures err.Some? ==> Run(ds[..j + 1], faults).failure.Some? && conn.pending == []
                          && Applied(AfterBatches(old(conn.pool.table.columns), Run(ds[..j + 1], faults), key, cols),
                                     conn.pool.table.columns, conn.pool.table.rows, quar.files, Err(DbError(err.value)),
                                     rows0, old(quar.files))
    ensures conn.pool.table.columns == old(conn.pool.table.columns)
    ensures conn.open == old(conn.open) && conn.cursors == old(conn.cursors)
  {
    RunSnoc(ds, faults, j);
    newTotal, newPending, err := total, pending, None;
    if dados == [] {
      return;
    }
    newTotal, newPending, err := InsertBatch(conn, sql, dados, j + 1, faults, total, pending, Run(ds[..j], faults), rows0);
    if err.Some? {
      quar.Write(QuarantineName(key, j + 1), QuarantineFile(cols, dados[..Min(SAMPLE, |dados|)]));
      conn.Rollback();
    }
  }

  /** The batch loop of load_csv and its final commit, on a connection with
      nothing pending. */
  method InsertBatches(conn: Connection, quar: QuarantineDir, batches: seq<seq<seq<string>>>,
                       width: nat, idxMap: seq<nat>, key: string, cols: seq<string>, sql: string,
                       faults: map<nat, int>, ghost ds: seq<seq<Row>>)
    returns (outcome: Outcome)
    requires Fits(idxMap, width) && ds == PrepareAll(batches, width, idxMap, key)
    requires conn.open && conn.pending == []
    modifies conn, conn.pool.table, quar
    ensures Applied(AfterBatches(old(conn.pool.table.columns), Run(ds, faults), key, cols),
                    conn.pool.table.columns, conn.pool.table.rows, quar.files, outcome,
                    old(conn.pool.table.rows), old(quar.files))
    ensures conn.open && conn.pending == [] && conn.cursors == old(conn.cursors)
  {
    var total, pending := 0, 0;
    var j := 0;
    while j < |batches|
      invariant 0 <= j <= |batches| == |ds|
      invariant Tracks(Run(ds[..j], faults), total, pending, conn.pending, conn.pool.table.rows, old(conn.pool.table.rows))
      invariant conn.pool.table.columns == old(conn.pool.table.columns)
      invariant conn.open && conn.cursors == old(conn.cursors)
      invariant quar.files == old(quar.files)
    {
      var dados := Prepare(batches[j], width, idxMap, key);
      var err;
      total, pending, err := InsertOne(conn, quar, dados, j, key, cols, sql, faults, total, pending,
                                       ds, old(conn.pool.table.rows));
      if err.Some? {
        RunSticky(ds, faults, j + 1);
        outcome := Err(DbError(err.value));
        return;
      }
      j := j + 1;
    }
    assert ds[..j] == ds;
    conn.Commit();
    outcome := Ok(total);
  }

  /** The body of load_csv's `try`, on a freshly acquired connection. Returns how
      it ended and whether the insert cursor was opened. */
  method Ingest(conn: Connection, quar: QuarantineDir, file: CsvFile, faults: Faults)
    returns (outcome: Outcome, cursorBound: bool)
    requires conn.open && conn.pending == []
    modifies conn, conn.pool.table, quar
    ensures Applied(Expected(file, faults, old(conn.pool.table.columns)), conn.pool.table.columns,
                    conn.pool.table.rows, quar.files, outcome, old(conn.pool.table.rows), old(quar.files))
    ensures cursorBound == (file.lines != [] && Sync(old(conn.pool.table.columns), ColumnsOf(file), faults.alter).error.None?)
    ensures conn.open && conn.pending == []
    ensures conn.cursors == old(conn.cursors) + (if cursorBound then 1 else 0)
  {
    if file.lines == [] {
      outcome, cursorBound := Err(NoHeader), false;
      return;
    }
    var header, idxMap := Dedup(file.lines[0]);
    var cols := header + [KEY_COLUMN];
    outcome, cursorBound := LoadWithHeader(conn, quar, file.lines[1..], |file.lines[0]|, idxMap, KeyOf(file), cols, faults);
  }

  /** check_and_create_columns, then the insert loop if the schema is in place. */
  method LoadWithHeader(conn: Connection, quar: QuarantineDir, rows: seq<seq<string>>, width: nat, idxMap: seq<nat>,
                     key: string, cols: seq<string>, faults: Faults)
    returns (outcome: Outcome, cursorBound: bool)
    requires Fits(idxMap, width)
    requires conn.open && conn.pending == []
    modifies conn, conn.pool.table, quar
    ensures Applied(WithHeader(old(conn.pool.table.columns), cols, PrepareAll(Chunks(rows, BATCH_SIZE), width, idxMap, key), key, faults),
                    conn.pool.table.columns, conn.pool.table.rows, quar.files, outcome,
                    old(conn.pool.table.rows), old(quar.files))
    ensures cursorBound == Sync(old(conn.pool.table.columns), cols, faults.alter).error.None?
    ensures conn.open && conn.pending == []
    ensures conn.cursors == old(conn.cursors) + (if cursorBound then 1 else 0)
  {
    ghost var s := Sync(conn.pool.table.columns, cols, faults.alter);
    var schemaErr := CheckAndCreateColumns(conn, cols, faults.alter);
    if schemaErr.Some? {
      outcome, cursorBound := Err(DbError(schemaErr.value)), false;
      return;
    }
    outcome := LoadRows(conn, quar, rows, width, idxMap, key, cols, faults.insert, s.columns);
    cursorBound := true;
  }

  /** The rest of the `try` once the schema is in place: the insert cursor and
      the batch loop. */
  method LoadRows(conn: Connection, quar: QuarantineDir, rows: seq<seq<string>>, width: nat, idxMap: seq<nat>,
                  key: string, cols: seq<string>, faults: map<nat, int>, ghost columns: seq<string>)
    returns (outcome: Outcome)
    requires Fits(idxMap, width)
    requires conn.open && conn.pending == [] && conn.pool.table.columns == columns
    modifies conn, conn.pool.table, quar
    ensures Applied(AfterBatches(columns, Run(PrepareAll(Chunks(rows, BATCH_SIZE), width, idxMap, key), faults), key, cols),
                    conn.pool.table.columns, conn.pool.table.rows, quar.files, outcome,
                    old(conn.pool.table.rows), old(quar.files))
    ensures conn.open && conn.pending == [] && conn.cursors == old(conn.cursors) + 1
  {
    var sql := BuildInsert(cols);
    conn.OpenCursor();
    var batches := Chunked(rows, BATCH_SIZE);
    outcome := InsertBatches(conn, quar, batches, width, idxMap, key, cols, sql, faults, PrepareAll(batches, width, idxMap, key));
  }

  /** load_csv(csv_path, pool), guarded as in historical.py. Returns the
      connection it used so that its final state can be stated. */
  method LoadCsv(pool: Pool, quar: QuarantineDir, file: CsvFile, faults: Faults)
    returns (outcome: Outcome, used: Connection?)
    modifies pool, pool.table, quar
    ensures old(pool.idle) == 0 ==>
      && outcome == Err(PoolExhausted) && used == null && pool.idle == 0
      && pool.table.columns == old(pool.table.columns) && pool.table.rows == old(pool.table.rows)
      && quar.files == old(quar.files)
    ensures old(pool.idle) > 0 ==>
      && Applied(Expected(file, faults, old(pool.table.columns)), pool.table.columns, pool.table.rows,
                 quar.files, outcome, old(pool.table.rows), old(quar.files))
      && pool.idle == old(pool.idle)
      && used != null && fresh(used) && !used.open && used.pending == [] && used.cursors == 0
  {
    used := pool.GetConnection();
    if used == null {
      outcome := Err(PoolExhausted);
      return;
    }
    var cursorBound;
    outcome, cursorBound := Ingest(used, quar, file, faults);
    Finish(used, outcome.Err?, cursorBound);
  }

  /** load_csv's `except` (a rollback while still connected) and its
      `finally` (the cursor closed only if it was opened, then the connection
      given back). */
  method Finish(conn: Connection, failed: bool, cursorBound: bool)
    requires conn.open && (cursorBound ==> conn.cursors > 0)
    modifies conn, conn.pool
    ensures !conn.open && conn.pending == []
    ensures conn.cursors == old(conn.cursors) - (if cursorBound then 1 else 0)
    ensures conn.pool.idle == old(conn.pool.idle) + 1
  {
    if failed {
      var connected := conn.IsConnected();
      if connected {
        conn.Rollback();
      }
    }
    if cursorBound {
      conn.CloseCursor();
    }
    conn.Close();
  }

  /** The database table and the quarantine directory. */
  datatype World = World(columns: seq<string>, rows: seq<Row>, quarantine: map<QuarantineName, QuarantineFile>)

  /** The world after effect `e`. */
  function Apply(w: World, e: Effect): World
  {
    World(e.columns, w.rows + e.committed, Quarantine(w.quarantine, e.quarantined))
  }

  /** load_csv with the guarded cursor, as either main calls it, on a pool that
      has a free connection or not. */
  function LoadOne(w: World, file: CsvFile, faults: Faults, available: bool): Effect
  {
    if available then Expected(file, faults, w.columns) else Effect(w.columns, [], None, Err(PoolExhausted))
  }
}
