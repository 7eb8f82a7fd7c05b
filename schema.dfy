/** Schema synchronisation (check_and_create_columns): every required column
    that the table lacks, compared without regard to case, is added; error 1060
    counts as success and any other error stops the run. */
module Schema {
  import opened Base
  import opened Text
  import opened Db

  datatype SyncResult = SyncResult(columns: seq<string>, error: Option<int>)

  /** Reference definition: the table's columns after trying `cols` in order
      against a table that had `existing`, with `faults` the server's answer to
      the ALTER for each name. The first error other than 1060 ends the run. */
  function Sync(existing: seq<string>, cols: seq<string>, faults: map<string, int>): SyncResult
    decreases |cols|
  {
    if cols == [] then SyncResult(existing, None)
    else
      var prev := Sync(existing, cols[..|cols| - 1], faults);
      var c := cols[|cols| - 1];
      if prev.error.Some? || Casefold(c) in Folds(prev.columns) then prev
      else if c in faults && faults[c] != ER_DUP_FIELDNAME then SyncResult(prev.columns, Some(faults[c]))
      else SyncResult(prev.columns + [c], None)
  }

  /** Once an error is raised, later columns are not tried. */
  lemma {:induction false} SyncSticky(existing: seq<string>, cols: seq<string>, faults: map<string, int>, j: nat)
    requires j <= |cols|
    requires Sync(existing, cols[..j], faults).error.Some?
    ensures Sync(existing, cols, faults) == Sync(existing, cols[..j], faults)
    decreases |cols|
  {
    if j < |cols| {
      var p := cols[..|cols| - 1];
      assert p[..j] == cols[..j];
      SyncSticky(existing, p, faults, j);
    } else {
      assert cols[..j] == cols;
    }
  }

  /** check_and_create_columns(conn, cols) */
  method CheckAndCreateColumns(conn: Connection, cols: seq<string>, faults: map<string, int>)
    returns (err: Option<int>)
    modifies conn, conn.pool.table
    ensures var s := Sync(old(conn.pool.table.columns), cols, faults);
      conn.pool.table.columns == s.columns && err == s.error
    ensures err.None? ==> conn.pool.table.rows == old(conn.pool.table.rows) + old(conn.pending) && conn.pending == []
    ensures err.Some? ==> conn.pool.table.rows == old(conn.pool.table.rows) && conn.pending == old(conn.pending)
    ensures conn.open == old(conn.open) && conn.cursors == old(conn.cursors)
  {
    ghost var existing := conn.pool.table.columns;
    conn.OpenCursor();
    var shown := conn.ShowColumns();
    var existentes := Folds(shown);
    err := None;
    var i := 0;
    while i < |cols|
      invariant 0 <= i <= |cols|
      invariant Sync(existing, cols[..i], faults) == SyncResult(conn.pool.table.columns, None)
      invariant existing <= conn.pool.table.columns
      invariant conn.pool.table.rows == old(conn.pool.table.rows)
      invariant conn.pending == old(conn.pending) && conn.open == old(conn.open)
      invariant conn.cursors == old(conn.cursors) + 1
    {
      var col := cols[i];
      assert cols[..i + 1][..i] == cols[..i];
      FoldsPrefix(existing, conn.pool.table.columns);
      if Casefold(col) !in existentes {
        var e := conn.AddColumn(col, Lookup(faults, col));
        if e.Some? && e.value != ER_DUP_FIELDNAME {
          err := e;
          SyncSticky(existing, cols, faults, i + 1);
          break;
        }
      }
      i := i + 1;
    }
    if err.None? {
      assert cols[..|cols|] == cols;
      conn.Commit();
    }
    conn.CloseCursor();
  }

  /** Columns are only ever added, never removed or reordered, and every added
      column is one of `cols`. */
  lemma {:induction false} SyncGrows(existing: seq<string>, cols: seq<string>, faults: map<string, int>)
    ensures var r := Sync(existing, cols, faults);
      && existing <= r.columns
      && forall k :: |existing| <= k < |r.columns| ==> r.columns[k] in cols
    decreases |cols|
  {
    if cols != [] {
      var p := cols[..|cols| - 1];
      SyncGrows(existing, p, faults);
      var prev := Sync(existing, p, faults);
      forall k | |existing| <= k < |prev.columns| ensures prev.columns[k] in cols {
        assert prev.columns[k] in p;
      }
    }
  }

  /** After a run without error every required column is present, compared
      without regard to case. */
  lemma {:induction false} SyncCovers(existing: seq<string>, cols: seq<string>, faults: map<string, int>)
    requires Sync(existing, cols, faults).error.None?
    ensures forall i :: 0 <= i < |cols| ==> Casefold(cols[i]) in Folds(Sync(existing, cols, faults).columns)
    decreases |cols|
  {
    if cols != [] {
      var p := cols[..|cols| - 1];
      var c := cols[|cols| - 1];
      var prev := Sync(existing, p, faults);
      var r := Sync(existing, cols, faults);
      assert prev.error.None?;
      SyncCovers(existing, p, faults);
      assert prev.columns <= r.columns;
      FoldsPrefix(prev.columns, r.columns);
      if Casefold(c) !in Folds(prev.columns) {
        FoldsSnoc(prev.columns, c);
      }
      forall i | 0 <= i < |cols| ensures Casefold(cols[i]) in Folds(r.columns) {
        if i < |p| { assert cols[i] == p[i]; }
      }
    }
  }

  /** When every required column is already present no ALTER is issued at all,
      whatever the server would have answered. */
  lemma {:induction false} SyncNoAlter(existing: seq<string>, cols: seq<string>, faults: map<string, int>)
    requires forall i :: 0 <= i < |cols| ==> Casefold(cols[i]) in Folds(existing)
    ensures Sync(existing, cols, faults) == SyncResult(existing, None)
    decreases |cols|
  {
    if cols != [] {
      var p := cols[..|cols| - 1];
      assert forall i :: 0 <= i < |p| ==> p[i] == cols[i];
      SyncNoAlter(existing, p, faults);
    }
  }

  /** A second run with the same columns changes nothing and cannot fail. */
  lemma SyncIdempotent(existing: seq<string>, cols: seq<string>, faults: map<string, int>, again: map<string, int>)
    requires Sync(existing, cols, faults).error.None?
    ensures var r := Sync(existing, cols, faults);
      Sync(r.columns, cols, again) == SyncResult(r.columns, None)
  {
    SyncCovers(existing, cols, faults);
    SyncNoAlter(Sync(existing, cols, faults).columns, cols, again);
  }

  /** An error that ends the run is never 1060; it is the server's answer for a
      required column that is still missing, and the columns added before it stay. */
  lemma {:induction false} SyncError(existing: seq<string>, cols: seq<string>, faults: map<string, int>)
    requires Sync(existing, cols, faults).error.Some?
    ensures var r := Sync(existing, cols, faults);
      && r.error.Some?
      && exists i ::
           && 0 <= i < |cols| && cols[i] in faults
           && r.error.value == faults[cols[i]] != ER_DUP_FIELDNAME
           && Casefold(cols[i]) !in Folds(r.columns)
           && Sync(existing, cols[..i], faults) == SyncResult(r.columns, None)
    decreases |cols|
  {
    var n := |cols| - 1;
    var p := cols[..n];
    var prev := Sync(existing, p, faults);
    if prev.error.Some? {
      SyncError(existing, p, faults);
      var i :| 0 <= i < |p| && p[i] in faults
        && prev.error.value == faults[p[i]] != ER_DUP_FIELDNAME
        && Casefold(p[i]) !in Folds(prev.columns)
        && Sync(existing, p[..i], faults) == SyncResult(prev.columns, None);
      assert p[..i] == cols[..i] && p[i] == cols[i];
    } else {
      assert cols[..n] == p;
    }
  }

  /** Error 1060 on an ALTER has the same effect as the ALTER succeeding. */
  lemma {:induction false} SyncDuplicateIsSuccess(existing: seq<string>, cols: seq<string>, faults: map<string, int>, c: string)
    ensures Sync(existing, cols, faults[c := ER_DUP_FIELDNAME]) == Sync(existing, cols, faults - {c})
    decreases |cols|
  {
    if cols != [] {
      SyncDuplicateIsSuccess(existing, cols[..|cols| - 1], faults, c);
    }
  }
}
