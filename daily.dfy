/** daily.py: its own load_csv, whose `finally` closes the cursor
    unconditionally, and main, which loads every file of the sorted list and
    carries on after a failed one. */
module Daily {
  import opened Base
  import opened Batching
  import opened Db
  import opened Schema
  import opened Loader
  import opened LoaderFacts

  /** Whether load_csv reaches `cur = conn.cursor()`: the file has a header and
      the schema step succeeds. */
  function CursorBound(file: CsvFile, faults: Faults, columns: seq<string>): bool
  {
    file.lines != [] && Sync(columns, ColumnsOf(file), faults.alter).error.None?
  }

  /** load_csv as daily.py writes it. Until `cur` is bound, the `finally`
      raises at cur.close(): that error replaces the one in flight and
      conn.close() is never reached, so the connection stays checked out. */
  method LoadCsvAsWritten(pool: Pool, quar: QuarantineDir, file: CsvFile, faults: Faults)
    returns (outcome: Outcome, used: Connection?)
    modifies pool, pool.table, quar
    ensures old(pool.idle) == 0 ==>
      && outcome == Err(PoolExhausted) && used == null && pool.idle == 0
      && pool.table.columns == old(pool.table.columns) && pool.table.rows == old(pool.table.rows)
      && quar.files == old(quar.files)
    ensures old(pool.idle) > 0 ==>
      var e := Expected(file, faults, old(pool.table.columns));
      var bound := CursorBound(file, faults, old(pool.table.columns));
      && Applied(e.(outcome := if bound then e.outcome else Err(UnboundCursor)), pool.table.columns,
                 pool.table.rows, quar.files, outcome, old(pool.table.rows), old(quar.files))
      && pool.idle == (if bound then old(pool.idle) else old(pool.idle) - 1)
      && used != null && fresh(used) && used.pending == []
      && used.open == !bound && used.cursors == 0
  {
    used := pool.GetConnection();
    if used == null {
      outcome := Err(PoolExhausted);
      return;
    }
    var cursorBound;
    outcome, cursorBound := Ingest(used, quar, file, faults);
    var unbound := FinishAsWritten(used, outcome.Err?, cursorBound);
    if unbound {
      outcome := Err(UnboundCursor);
    }
  }

  /** daily.py's `except` (an unconditional rollback) and its `finally`:
      cur.close() raises while `cur` is unbound, so conn.close() runs only
      once the cursor exists. */
  method FinishAsWritten(conn: Connection, failed: bool, cursorBound: bool) returns (unbound: bool)
    requires conn.open && conn.pending == [] && (cursorBound ==> conn.cursors > 0)
    modifies conn, conn.pool
    ensures unbound == !cursorBound
    ensures conn.open == !cursorBound && conn.pending == []
    ensures conn.cursors == old(conn.cursors) - (if cursorBound then 1 else 0)
    ensures conn.pool.idle == old(conn.pool.idle) + (if cursorBound then 1 else 0)
  {
    if failed {
      conn.Rollback();
    }
    if !cursorBound {
      return true;
    }
    conn.CloseCursor();
    conn.Close();
    unbound := false;
  }

  /** An empty file on a pool of one connection: as written, the load reports
      the unbound cursor instead of the missing header and leaves the pool
      empty; the guarded load reports the missing header and gives the
      connection back. */
  method EmptyFileLeaksConnection() returns (asWritten: Outcome, idleAsWritten: nat, guarded: Outcome, idleGuarded: nat)
    ensures asWritten == Err(UnboundCursor) && idleAsWritten == 0
    ensures guarded == Err(NoHeader) && idleGuarded == 1
  {
    var file := CsvFile("clientes.csv", []);
    var faults := Faults(map[], map[]);
    var table := new Table([]);
    var pool := new Pool(table, 1);
    var quar := new QuarantineDir();
    var used;
    asWritten, used := LoadCsvAsWritten(pool, quar, file, faults);
    idleAsWritten := pool.idle;
    var table2 := new Table([]);
    var pool2 := new Pool(table2, 1);
    var quar2 := new QuarantineDir();
    guarded, used := LoadCsv(pool2, quar2, file, faults);
    idleGuarded := pool2.idle;
  }

  /** With a pool of one connection, the leak makes every later file of the
      run fail on pool.get_connection(), however well-formed it is. */
  method LeakStarvesLaterFiles(later: seq<CsvFile>, faults: seq<Faults>) returns (first: Outcome, rest: seq<Outcome>)
    requires |faults| == |later|
    ensures first == Err(UnboundCursor)
    ensures |rest| == |later| && forall i :: 0 <= i < |rest| ==> rest[i] == Err(PoolExhausted)
  {
    var table := new Table([]);
    var pool := new Pool(table, 1);
    var quar := new QuarantineDir();
    var used;
    first, used := LoadCsvAsWritten(pool, quar, CsvFile("vazio.csv", []), Faults(map[], map[]));
    rest := [];
    for i := 0 to |later|
      invariant pool.idle == 0
      invariant |rest| == i && forall j :: 0 <= j < i ==> rest[j] == Err(PoolExhausted)
    {
      var outcome;
      outcome, used := LoadCsvAsWritten(pool, quar, later[i], faults[i]);
      rest := rest + [outcome];
    }
  }

  datatype Report = Report(world: World, outcomes: seq<Outcome>)

  /** Reference definition of main's loop: every file is loaded in list order
      against the world the files before it left, whatever their outcome. */
  function DailyRun(w: World, files: seq<CsvFile>, faults: seq<Faults>, available: bool): (r: Report)
    requires |faults| == |files|
    ensures |r.outcomes| == |files|
    decreases |files|
  {
    if files == [] then Report(w, [])
    else
      var n := |files| - 1;
      var prev := DailyRun(w, files[..n], faults[..n], available);
      var e := LoadOne(prev.world, files[n], faults[n], available);
      Report(Apply(prev.world, e), prev.outcomes + [e.outcome])
  }

  lemma DailyRunSnoc(w: World, files: seq<CsvFile>, faults: seq<Faults>, available: bool, i: nat)
    requires |faults| == |files| && i < |files|
    ensures var prev := DailyRun(w, files[..i], faults[..i], available);
      var e := LoadOne(prev.world, files[i], faults[i], available);
      DailyRun(w, files[..i + 1], faults[..i + 1], available) == Report(Apply(prev.world, e), prev.outcomes + [e.outcome])
  {
    assert files[..i + 1][..i] == files[..i];
    assert faults[..i + 1][..i] == faults[..i];
  }

  /** main of daily.py over the sorted file list, with the guarded load. Only
      the files' contents and the server's answers are inputs; the glob and
      the sort are not modelled. */
  method Daily(pool: Pool, quar: QuarantineDir, files: seq<CsvFile>, faults: seq<Faults>)
    returns (outcomes: seq<Outcome>)
    requires |faults| == |files|
    modifies pool, pool.table, quar
    ensures var r := DailyRun(World(old(pool.table.columns), old(pool.table.rows), old(quar.files)),
                              files, faults, old(pool.idle) > 0);
      && World(pool.table.columns, pool.table.rows, quar.files) == r.world
      && outcomes == r.outcomes
    ensures pool.idle == old(pool.idle)
  {
    ghost var w0 := World(pool.table.columns, pool.table.rows, quar.files);
    ghost var available := pool.idle > 0;
    outcomes := [];
    for i := 0 to |files|
      invariant DailyRun(w0, files[..i], faults[..i], available)
                == Report(World(pool.table.columns, pool.table.rows, quar.files), outcomes)
      invariant pool.idle == old(pool.idle)
    {
      DailyRunSnoc(w0, files, faults, available, i);
      var outcome, used := LoadCsv(pool, quar, files[i], faults[i]);
      outcomes := outcomes + [outcome];
    }
    assert files[..|files|] == files && faults[..|faults|] == faults;
  }

  /** Per-file isolation: file i is loaded against the world the files before
      it left, and its outcome is its own whatever the others' were. */
  lemma {:induction false} DailyIsolation(w: World, files: seq<CsvFile>, faults: seq<Faults>, available: bool, i: nat)
    requires |faults| == |files| && i < |files|
    ensures var before := DailyRun(w, files[..i], faults[..i], available);
      DailyRun(w, files, faults, available).outcomes[i] == LoadOne(before.world, files[i], faults[i], available).outcome
    decreases |files|
  {
    var n := |files| - 1;
    if i < n {
      DailyIsolation(w, files[..n], faults[..n], available, i);
      assert files[..n][..i] == files[..i] && faults[..n][..i] == faults[..i];
    } else {
      assert files[..n] == files[..i] && faults[..n] == faults[..i];
    }
  }

  /** Without a free connection every file fails on get_connection and
      nothing changes. */
  lemma {:induction false} DailyExhausted(w: World, files: seq<CsvFile>, faults: seq<Faults>)
    requires |faults| == |files|
    ensures var r := DailyRun(w, files, faults, false);
      r.world == w && forall i :: 0 <= i < |files| ==> r.outcomes[i] == Err(PoolExhausted)
    decreases |files|
  {
    if files != [] {
      var n := |files| - 1;
      DailyExhausted(w, files[..n], faults[..n]);
      assert w.rows + [] == w.rows;
    }
  }

  /** `t` is a tuple of `file`: the projection of one of its data rows at
      least as wide as its header, ending with the file's CustomerKey. */
  predicate FromFile(t: Row, file: CsvFile)
  {
    && file.lines != [] && |t| > 0 && t[|t| - 1] == KeyOf(file)
    && exists row :: row in file.lines[1..] && |row| >= |file.lines[0]|
         && t == Project(row, HeaderOf(file).indexMap, KeyOf(file))
  }

  /** Every row one load commits is a tuple of its file. */
  lemma LoadOneRows(w: World, file: CsvFile, faults: Faults, available: bool)
    ensures forall t :: t in LoadOne(w, file, faults, available).committed ==> FromFile(t, file)
  {
    if available && file.lines != [] {
      ExpectedTuples(file, faults, w.columns);
      var e := Expected(file, faults, w.columns);
      assert forall t :: t in e.committed ==> t in Sent(e);
    }
  }

  /** The run only appends to the table, and every row it appends is a tuple
      of one of the files. */
  lemma {:induction false} DailyRows(w: World, files: seq<CsvFile>, faults: seq<Faults>, available: bool)
    requires |faults| == |files|
    ensures var r := DailyRun(w, files, faults, available);
      && w.rows <= r.world.rows
      && forall t :: t in r.world.rows[|w.rows|..] ==> exists i :: 0 <= i < |files| && FromFile(t, files[i])
    decreases |files|
  {
    if files != [] {
      var n := |files| - 1;
      var prev := DailyRun(w, files[..n], faults[..n], available);
      DailyRows(w, files[..n], faults[..n], available);
      var e := LoadOne(prev.world, files[n], faults[n], available);
      LoadOneRows(prev.world, files[n], faults[n], available);
      var added := DailyRun(w, files, faults, available).world.rows[|w.rows|..];
      assert added == prev.world.rows[|w.rows|..] + e.committed;
      forall t | t in added ensures exists i :: 0 <= i < |files| && FromFile(t, files[i]) {
        if t in prev.world.rows[|w.rows|..] {
          var i :| 0 <= i < n && FromFile(t, files[..n][i]);
          assert files[..n][i] == files[i];
        } else {
          assert FromFile(t, files[n]);
        }
      }
    }
  }
}
