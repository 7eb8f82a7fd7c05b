/** Properties of the batch loop (Run) and of a whole load (Expected): the
    counters, the commit points, which batch fails, what is quarantined and
    the shape of every tuple that reaches the server. */
module LoaderFacts {
  import opened Base
  import opened Header
  import opened Batching
  import opened Sql
  import opened Db
  import opened Schema
  import opened Loader

  lemma FlattenSplit<T>(ds: seq<seq<T>>, c: nat, n: nat)
    requires c <= n <= |ds|
    ensures Flatten(ds[..n]) == Flatten(ds[..c]) + Flatten(ds[c..n])
  {
    assert ds[..n] == ds[..c] + ds[c..n];
    FlattenAppend(ds[..c], ds[c..n]);
  }

  /** `pending` counts the rows inserted since the last commit and is below
      COMMIT_INT whenever the threshold check has run; `total` counts every
      row inserted. */
  lemma {:induction false} RunCounters(ds: seq<seq<Row>>, faults: map<nat, int>)
    ensures var p := Run(ds, faults);
      && p.pending == |p.uncommitted| && p.pending < COMMIT_INT
      && p.total == |p.committed| + |p.uncommitted|
    decreases |ds|
  {
    if ds != [] {
      RunCounters(ds[..|ds| - 1], faults);
    }
  }

  lemma FlattenSnocSlice<T>(ds: seq<seq<T>>, c: nat, n: nat)
    requires c <= n < |ds|
    ensures Flatten(ds[c..n + 1]) == Flatten(ds[c..n]) + ds[n]
  {
    assert ds[c..n + 1] == ds[c..n] + [ds[n]];
    FlattenSnoc(ds[c..n], ds[n]);
  }

  /** Committed rows are never taken back: whatever the loop had committed
      after its first m batches is still committed at the end. */
  lemma {:induction false} RunCommittedGrows(ds: seq<seq<Row>>, faults: map<nat, int>, m: nat)
    requires m <= |ds|
    ensures Run(ds[..m], faults).committed <= Run(ds, faults).committed
    decreases |ds|
  {
    if m == |ds| {
      assert ds[..m] == ds;
    } else {
      var n := |ds| - 1;
      RunCommittedGrows(ds[..n], faults, m);
      assert ds[..n][..m] == ds[..m];
      StepCommittedGrows(Run(ds[..n], faults), ds[n], |ds|, faults);
    }
  }

  lemma StepCommittedGrows(p: Progress, d: seq<Row>, batchNo: nat, faults: map<nat, int>)
    ensures p.committed <= Step(p, d, batchNo, faults).committed
  {
    if p.failure.None? && d != [] && batchNo !in faults && p.pending + |d| >= COMMIT_INT {
      assert Step(p, d, batchNo, faults).committed == p.committed + (p.uncommitted + d);
    }
  }

  /** When the rows committed after c batches are those committed at the end,
      no batch in between committed anything. */
  lemma RunQuietBetween(ds: seq<seq<Row>>, faults: map<nat, int>, c: nat, m: nat)
    requires c <= m <= |ds|
    requires Run(ds[..c], faults).committed == Run(ds, faults).committed
    ensures Run(ds[..m], faults).committed == Run(ds, faults).committed
  {
    assert ds[..m][..c] == ds[..c];
    RunCommittedGrows(ds[..m], faults, c);
    RunCommittedGrows(ds, faults, m);
  }

  /** Without a failed batch the loop state splits the prepared tuples at a
      batch boundary c, the last partial commit: the batches before c are
      committed, the others are still pending, and nothing has been committed
      since batch c. */
  lemma {:induction false} RunCommitPoint(ds: seq<seq<Row>>, faults: map<nat, int>) returns (c: nat)
    requires Run(ds, faults).failure.None?
    ensures c <= |ds|
    ensures Run(ds, faults).committed == Flatten(ds[..c])
    ensures Run(ds, faults).uncommitted == Flatten(ds[c..])
    ensures Run(ds[..c], faults).committed == Flatten(ds[..c])
    ensures forall m :: c <= m <= |ds| ==> Run(ds[..m], faults).committed == Flatten(ds[..c])
    decreases |ds|
  {
    if ds == [] {
      c := 0;
      assert ds[..0] == [] && ds[0..] == [];
    } else {
      var n := |ds| - 1;
      var prev := Run(ds[..n], faults);
      var d := ds[n];
      assert prev.failure.None? && (d != [] ==> |ds| !in faults);
      var c0 := RunCommitPoint(ds[..n], faults);
      assert ds[..n][..c0] == ds[..c0] && ds[..n][c0..] == ds[c0..n];
      if d != [] && prev.pending + |d| >= COMMIT_INT {
        c := |ds|;
        assert Run(ds, faults).committed == prev.committed + prev.uncommitted + d;
        FlattenSplit(ds, c0, n);
        FlattenSnocSlice(ds, 0, n);
        assert ds[0..n] == ds[..n] && ds[0..n + 1] == ds[..c];
        assert ds[c..] == [];
        assert ds[..|ds|] == ds;
      } else {
        c := c0;
        assert Run(ds, faults).committed == prev.committed;
        assert Run(ds, faults).uncommitted == prev.uncommitted + d;
        FlattenSnocSlice(ds, c0, n);
        assert ds[c0..n + 1] == ds[c0..];
      }
    }
    forall m | c <= m <= |ds| ensures Run(ds[..m], faults).committed == Flatten(ds[..c]) {
      RunQuietBetween(ds, faults, c, m);
    }
  }

  /** Every item of a batch is an item of the flattened stream. */
  lemma FlattenHas<T>(ds: seq<seq<T>>, j: nat)
    requires j < |ds|
    ensures forall t :: t in ds[j] ==> t in Flatten(ds)
  {
    FlattenSplit(ds, j, |ds|);
    assert ds[j..|ds|] == [ds[j]] + ds[j + 1..];
    assert Flatten(ds[j..|ds|]) == ds[j] + Flatten(ds[j + 1..]);
    assert ds[..|ds|] == ds;
  }

  /** Without a failed batch every prepared tuple has been inserted, in order. */
  lemma RunInserted(ds: seq<seq<Row>>, faults: map<nat, int>)
    requires Run(ds, faults).failure.None?
    ensures Run(ds, faults).committed + Run(ds, faults).uncommitted == Flatten(ds)
  {
    var c := RunCommitPoint(ds, faults);
    FlattenSplit(ds, c, |ds|);
    assert ds[..|ds|] == ds && ds[c..|ds|] == ds[c..];
  }

  /** The loop runs to the end exactly when no non-empty batch is rejected. */
  lemma {:induction false} RunClean(ds: seq<seq<Row>>, faults: map<nat, int>)
    ensures Run(ds, faults).failure.None? <==> forall j :: 0 <= j < |ds| && ds[j] != [] ==> j + 1 !in faults
    decreases |ds|
  {
    if ds != [] {
      var n := |ds| - 1;
      RunClean(ds[..n], faults);
      assert forall j :: 0 <= j < n ==> ds[..n][j] == ds[j];
    }
  }

  /** A failure names the first non-empty batch whose insert is rejected; the
      loop state is the one after the batches before it, and the failed batch's
      rows are its prepared tuples. */
  lemma {:induction false} RunFailure(ds: seq<seq<Row>>, faults: map<nat, int>)
    requires Run(ds, faults).failure.Some?
    ensures var p := Run(ds, faults);
      var f := p.failure.value;
      var k := f.batchNo;
      && 1 <= k <= |ds| && f.rows == ds[k - 1] && f.rows != []
      && k in faults && f.errno == faults[k]
      && (forall j :: 0 <= j < k - 1 && ds[j] != [] ==> j + 1 !in faults)
      && Run(ds[..k - 1], faults).failure.None?
      && p == Run(ds[..k - 1], faults).(failure := p.failure)
    decreases |ds|
  {
    var n := |ds| - 1;
    var prev := Run(ds[..n], faults);
    if prev.failure.Some? {
      RunFailure(ds[..n], faults);
      var k := prev.failure.value.batchNo;
      assert ds[..n][..k - 1] == ds[..k - 1];
      assert ds[..n][k - 1] == ds[k - 1];
      assert forall j :: 0 <= j < k - 1 ==> ds[..n][j] == ds[j];
    } else {
      RunClean(ds[..n], faults);
      assert forall j :: 0 <= j < n ==> ds[..n][j] == ds[j];
    }
  }

  /** 60,000 rows in batches of BATCH_SIZE with no rejected insert: three
      inserts, a partial commit after the second one, and 10,000 rows left for
      the final commit. */
  lemma RunSixtyThousand(ds: seq<seq<Row>>, faults: map<nat, int>)
    requires |ds| == 3 && |ds[0]| == 25000 && |ds[1]| == 25000 && |ds[2]| == 10000
    requires 1 !in faults && 2 !in faults && 3 !in faults
    ensures Run(ds[..1], faults) == Progress(25000, 25000, [], ds[0], None)
    ensures Run(ds[..2], faults) == Progress(50000, 0, ds[0] + ds[1], [], None)
    ensures Run(ds, faults) == Progress(60000, 10000, ds[0] + ds[1], ds[2], None)
  {
    RunSnoc(ds, faults, 0);
    assert ds[..0] == [];
    assert [] + ds[0] == ds[0];
    RunSnoc(ds, faults, 1);
    RunSnoc(ds, faults, 2);
    assert ds[..3] == ds;
    assert [] + ds[0] + ds[1] == ds[0] + ds[1];
  }

  /** The same stream whose third insert is rejected: the 50,000 rows of the
      partial commit stay, and the first SAMPLE tuples of the third batch are
      quarantined. */
  lemma RunSixtyThousandThirdFails(ds: seq<seq<Row>>, faults: map<nat, int>, key: string, cols: seq<string>, columns: seq<string>)
    requires |ds| == 3 && |ds[0]| == 25000 && |ds[1]| == 25000 && |ds[2]| == 10000
    requires 1 !in faults && 2 !in faults && 3 in faults
    ensures var e := AfterBatches(columns, Run(ds, faults), key, cols);
      && e.committed == ds[0] + ds[1]
      && e.quarantined == Some(Quarantined(QuarantineName(key, 3), QuarantineFile(cols, ds[2][..SAMPLE])))
      && e.outcome == Err(DbError(faults[3]))
  {
    RunSnoc(ds, faults, 0);
    assert ds[..0] == [];
    assert [] + ds[0] == ds[0];
    RunSnoc(ds, faults, 1);
    RunSnoc(ds, faults, 2);
    assert ds[..3] == ds;
    assert [] + ds[0] + ds[1] == ds[0] + ds[1];
  }

  /** After a failed batch k the committed rows are the whole batches before
      the last partial commit c before k; nothing was committed between c and
      k, and nothing committed at any point of the loop is lost. */
  lemma RunFailureCommits(ds: seq<seq<Row>>, faults: map<nat, int>)
    requires Run(ds, faults).failure.Some?
    ensures var p := Run(ds, faults);
      var k := p.failure.value.batchNo;
      && 1 <= k <= |ds|
      && exists c ::
           && 0 <= c <= k - 1 && p.committed == Flatten(ds[..c])
           && forall m :: c <= m <= k - 1 ==> Run(ds[..m], faults).committed == p.committed
    ensures forall m :: 0 <= m <= |ds| ==> Run(ds[..m], faults).committed <= Run(ds, faults).committed
  {
    RunFailure(ds, faults);
    var p := Run(ds, faults);
    var k := p.failure.value.batchNo;
    var c := RunCommitPoint(ds[..k - 1], faults);
    assert ds[..k - 1][..c] == ds[..c];
    forall m | c <= m <= k - 1 ensures Run(ds[..m], faults).committed == p.committed {
      assert ds[..k - 1][..m] == ds[..m];
    }
    forall m | 0 <= m <= |ds| ensures Run(ds[..m], faults).committed <= p.committed {
      RunCommittedGrows(ds, faults, m);
    }
  }

  /** Batching does not change which tuples a file yields, nor their order. */
  lemma TuplesFlatten(file: CsvFile)
    requires file.lines != []
    ensures Flatten(TuplesOf(file)) == Prepare(file.lines[1..], |file.lines[0]|, HeaderOf(file).indexMap, KeyOf(file))
  {
    var bs := Chunks(file.lines[1..], BATCH_SIZE);
    ChunksSpec(file.lines[1..], BATCH_SIZE);
    PrepareAllFlatten(bs, |file.lines[0]|, HeaderOf(file).indexMap, KeyOf(file));
  }

  /** The tuples committed or quarantined by a load. */
  function Sent(e: Effect): seq<Row>
  {
    e.committed + (if e.quarantined.Some? then e.quarantined.value.file.rows else [])
  }

  /** The load after the header completes exactly when the schema step
      succeeds and no non-empty batch is rejected; then it commits every
      prepared tuple, in order, writes no quarantine file and returns the
      number of rows committed. */
  lemma LoadedSuccess(columns: seq<string>, cols: seq<string>, ds: seq<seq<Row>>, key: string, faults: Faults)
    ensures var e := WithHeader(columns, cols, ds, key, faults);
      e.outcome.Ok? <==>
        (Sync(columns, cols, faults.alter).error.None?
         && forall j :: 0 <= j < |ds| && ds[j] != [] ==> j + 1 !in faults.insert)
    ensures var e := WithHeader(columns, cols, ds, key, faults);
      e.outcome.Ok? ==>
        && e.committed == Flatten(ds) && e.outcome.total == |e.committed|
        && e.quarantined.None? && e.columns == Sync(columns, cols, faults.alter).columns
  {
    RunClean(ds, faults.insert);
    if Run(ds, faults.insert).failure.None? {
      RunInserted(ds, faults.insert);
      RunCounters(ds, faults.insert);
    }
  }

  /** A rejected batch k: it is the first non-empty batch the server rejects;
      its quarantine file is named after the key and k and holds the columns
      and the first min(SAMPLE, n) of its n tuples; the error is re-raised; and
      the rows committed are whole batches before k, those up to the last
      partial commit c before k, after which nothing more was committed; and
      no row committed at any point of the loop is lost. */
  lemma LoadedBatchFailure(columns: seq<string>, cols: seq<string>, ds: seq<seq<Row>>, key: string, faults: Faults)
    requires WithHeader(columns, cols, ds, key, faults).quarantined.Some?
    ensures var e := WithHeader(columns, cols, ds, key, faults);
      var q := e.quarantined.value;
      var k := q.name.batchNo;
      && Sync(columns, cols, faults.alter).error.None?
      && 1 <= k <= |ds| && ds[k - 1] != [] && k in faults.insert
      && (forall j :: 0 <= j < k - 1 && ds[j] != [] ==> j + 1 !in faults.insert)
      && e.outcome == Err(DbError(faults.insert[k]))
      && q.name.key == key && q.file.header == cols
      && q.file.rows == ds[k - 1][..Min(SAMPLE, |ds[k - 1]|)]
      && (exists c ::
            && 0 <= c <= k - 1 && e.committed == Flatten(ds[..c])
            && forall m :: c <= m <= k - 1 ==> Run(ds[..m], faults.insert).committed == e.committed)
      && forall m :: 0 <= m <= |ds| ==> Run(ds[..m], faults.insert).committed <= e.committed
  {
    RunFailure(ds, faults.insert);
    RunFailureCommits(ds, faults.insert);
  }

  /** Every tuple a load commits or quarantines is one of the prepared tuples. */
  lemma LoadedSent(columns: seq<string>, cols: seq<string>, ds: seq<seq<Row>>, key: string, faults: Faults)
    ensures forall t :: t in Sent(WithHeader(columns, cols, ds, key, faults)) ==> t in Flatten(ds)
  {
    var e := WithHeader(columns, cols, ds, key, faults);
    if Sync(columns, cols, faults.alter).error.None? {
      var p := Run(ds, faults.insert);
      if p.failure.None? {
        RunInserted(ds, faults.insert);
        assert Sent(e) == e.committed;
      } else {
        RunFailure(ds, faults.insert);
        RunFailureCommits(ds, faults.insert);
        var k := p.failure.value.batchNo;
        var c :| 0 <= c <= k - 1 && p.committed == Flatten(ds[..c]);
        FlattenSplit(ds, c, |ds|);
        assert ds[..|ds|] == ds;
        FlattenHas(ds, k - 1);
        var rows := e.quarantined.value.file.rows;
        assert forall t :: t in rows ==> t in ds[k - 1];
      }
    }
  }

  /** A file loads completely exactly when the schema step succeeds and no
      non-empty batch is rejected; then every data row at least as wide as
      the header is committed, projected, in file order. */
  lemma ExpectedSuccess(file: CsvFile, faults: Faults, columns: seq<string>)
    requires file.lines != []
    ensures var e := Expected(file, faults, columns);
      var ds := TuplesOf(file);
      e.outcome.Ok? <==>
        (Sync(columns, ColumnsOf(file), faults.alter).error.None?
         && forall j :: 0 <= j < |ds| && ds[j] != [] ==> j + 1 !in faults.insert)
    ensures var e := Expected(file, faults, columns);
      e.outcome.Ok? ==>
        && e.committed == Prepare(file.lines[1..], |file.lines[0]|, HeaderOf(file).indexMap, KeyOf(file))
        && e.outcome.total == |e.committed| && e.quarantined.None?
  {
    LoadedSuccess(columns, ColumnsOf(file), TuplesOf(file), KeyOf(file), faults);
    TuplesFlatten(file);
  }

  /** A schema error ends the load before any row is inserted and without a
      quarantine file: the error is the server's answer, other than 1060, to
      the ALTER of one of the required columns. */
  lemma ExpectedSchemaFailure(file: CsvFile, faults: Faults, columns: seq<string>)
    requires file.lines != []
    requires Sync(columns, ColumnsOf(file), faults.alter).error.Some?
    ensures var e := Expected(file, faults, columns);
      var cols := ColumnsOf(file);
      && e.committed == [] && e.quarantined.None?
      && (exists i :: 0 <= i < |cols| && cols[i] in faults.alter && faults.alter[cols[i]] != ER_DUP_FIELDNAME
            && e.outcome == Err(DbError(faults.alter[cols[i]])))
  {
    SyncError(columns, ColumnsOf(file), faults.alter);
  }

  /** Every tuple that reaches the server, committed or quarantined, has one
      field per column of the INSERT and ends with the file's CustomerKey; it
      is the projection of a data row at least as wide as the raw header. */
  lemma ExpectedTuples(file: CsvFile, faults: Faults, columns: seq<string>)
    requires file.lines != []
    ensures forall t :: t in Sent(Expected(file, faults, columns)) ==>
      && |t| == |ColumnsOf(file)| && t[|t| - 1] == KeyOf(file)
      && exists r :: r in file.lines[1..] && |r| >= |file.lines[0]| && t == Project(r, HeaderOf(file).indexMap, KeyOf(file))
  {
    LoadedSent(columns, ColumnsOf(file), TuplesOf(file), KeyOf(file), faults);
    TuplesFlatten(file);
    PrepareSpec(file.lines[1..], |file.lines[0]|, HeaderOf(file).indexMap, KeyOf(file));
  }

  /** Each tuple sent fills the INSERT exactly: it has one value per item of
      the placeholder list and, when no column name contains a '%', one per
      '%' of the statement. */
  lemma TupleFillsInsert(file: CsvFile, faults: Faults, columns: seq<string>, t: Row)
    requires file.lines != []
    requires t in Sent(Expected(file, faults, columns))
    ensures |t| == |SplitList(Placeholders(|ColumnsOf(file)|))|
    ensures (forall i :: 0 <= i < |ColumnsOf(file)| ==> Count('%', ColumnsOf(file)[i]) == 0) ==>
      |t| == Count('%', BuildInsert(ColumnsOf(file)))
  {
    ExpectedTuples(file, faults, columns);
    PlaceholdersSplit(|ColumnsOf(file)|);
    if forall i :: 0 <= i < |ColumnsOf(file)| ==> Count('%', ColumnsOf(file)[i]) == 0 {
      BuildInsertPlaceholders(ColumnsOf(file));
    }
  }
}
