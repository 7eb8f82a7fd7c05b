/** historical.py's main: the remote listing is filtered by PATTERN; each
    matching file is downloaded to a temporary copy, loaded with the guarded
    load_csv, and its copy deleted whatever the load did. A failed download
    or a failed load ends the run. */
module Historical {
  import opened Base
  import opened Db
  import opened Loader
  import opened Pattern

  /** How a download can fail: the old local copy is held open by another
      program, so unlinking it raises PermissionError; or the transfer stops
      after writing `partial`. */
  datatype DownloadFault = Locked | Interrupted(partial: seq<seq<string>>)

  /** The environment's answers for one file: the download, the load and the
      unlink of the temporary copy. */
  datatype ItemFaults = ItemFaults(download: Option<DownloadFault>, load: Faults, unlinkFails: bool)

  /** Files with no entry see no fault. */
  function FaultsOf(faults: map<string, ItemFaults>, name: string): ItemFaults
  {
    if name in faults then faults[name] else ItemFaults(None, Faults(map[], map[]), false)
  }

  datatype Fetched = Fetched(temp: map<string, seq<seq<string>>>, err: Option<Failure>)

  /** Reference definition of download_file on the temporary directory `temp`. */
  function Fetch(temp: map<string, seq<seq<string>>>, name: string, content: seq<seq<string>>,
                 fault: Option<DownloadFault>): Fetched
  {
    if name in temp && fault == Some(Locked) then Fetched(temp, Some(PermissionDenied))
    else if fault.Some? && fault.value.Interrupted? then Fetched(temp[name := fault.value.partial], Some(TransferFailed))
    else Fetched(temp[name := content], None)
  }

  /** What download_file promises: on success the local copy is exactly the
      remote content; on failure the run gets PermissionDenied (an old copy
      that could not be removed, left as it was) or TransferFailed; no other
      local file is touched. */
  lemma FetchSpec(temp: map<string, seq<seq<string>>>, name: string, content: seq<seq<string>>,
                  fault: Option<DownloadFault>)
    ensures var f := Fetch(temp, name, content, fault);
      && (f.err.None? <==> fault.None? || (fault == Some(Locked) && name !in temp))
      && (f.err.None? ==> name in f.temp && f.temp[name] == content)
      && (f.err == Some(PermissionDenied) ==> name in temp && f.temp == temp)
      && (f.err.Some? ==> f.err == Some(PermissionDenied) || f.err == Some(TransferFailed))
      && (forall n :: n != name ==> (n in f.temp <==> n in temp) && (n in temp ==> f.temp[n] == temp[n]))
  {
  }

  /** The local directory holding the temporary copies. */
  class TempDir {
    var files: map<string, seq<seq<string>>>

    constructor ()
      ensures files == map[]
    {
      files := map[];
    }

    /** download_file(sftp, remote_path, local_path): an existing copy is
        unlinked first, then the remote file is fetched. */
    method Download(name: string, content: seq<seq<string>>, fault: Option<DownloadFault>)
      returns (err: Option<Failure>)
      modifies this
      ensures Fetched(files, err) == Fetch(old(files), name, content, fault)
    {
      if name in files {
        if fault == Some(Locked) {
          err := Some(PermissionDenied);
          return;
        }
        files := files - {name};
      }
      match fault {
        case Some(Interrupted(partial)) =>
          files := files[name := partial];
          err := Some(TransferFailed);
        case _ =>
          files := files[name := content];
          err := None;
      }
    }

    /** local_path.unlink() inside `try ... except Exception: pass`. */
    method Unlink(name: string, fails: bool)
      modifies this
      ensures files == if fails then old(files) else old(files) - {name}
    {
      if !fails {
        files := files - {name};
      }
    }
  }

  /** The listing entries whose names match PATTERN, in listing order. */
  function Matching(listing: seq<CsvFile>): (r: seq<CsvFile>)
    decreases |listing|
  {
    if listing == [] then []
    else
      var prev := Matching(listing[..|listing| - 1]);
      var item := listing[|listing| - 1];
      if Glob(PATTERN, item.name) then prev + [item] else prev
  }

  /** The filter keeps exactly the matching entries and no more of them. */
  lemma {:induction false} MatchingSpec(listing: seq<CsvFile>)
    ensures |Matching(listing)| <= |listing|
    ensures forall x :: x in Matching(listing) <==> x in listing && IsHistorical(x.name)
    decreases |listing|
  {
    if listing != [] {
      var p := listing[..|listing| - 1];
      var item := listing[|listing| - 1];
      MatchingSpec(p);
      GlobHistorical(item.name);
      assert listing == p + [item];
      forall x | x in listing ensures x in p || x == item { }
      forall x | x in p ensures IsHistorical(x.name) <==> Glob(PATTERN, x.name) {
        GlobHistorical(x.name);
      }
    }
  }

  /** Where the run stands: the database, the temporary directory, the
      outcome of every load so far and the exception that ended the run. */
  datatype HistState = HistState(world: World, temp: map<string, seq<seq<string>>>,
                               outcomes: seq<Outcome>, abort: Option<Failure>)

  /** One iteration of main's loop over the matching items. */
  function HistStep(p: HistState, item: CsvFile, f: ItemFaults, available: bool): HistState
  {
    if p.abort.Some? then p
    else
      var d := Fetch(p.temp, item.name, item.lines, f.download);
      if d.err.Some? then p.(temp := d.temp, abort := d.err)
      else
        var e := LoadOne(p.world, item, f.load, available);
        var temp := if f.unlinkFails then d.temp else d.temp - {item.name};
        HistState(Apply(p.world, e), temp, p.outcomes + [e.outcome],
                 if e.outcome.Err? then Some(e.outcome.failure) else None)
  }

  /** Reference definition of main's loop. */
  function HistRun(p: HistState, items: seq<CsvFile>, faults: map<string, ItemFaults>, available: bool): HistState
    decreases |items|
  {
    if items == [] then p
    else
      var n := |items| - 1;
      HistStep(HistRun(p, items[..n], faults, available), items[n], FaultsOf(faults, items[n].name), available)
  }

  lemma HistRunSnoc(p: HistState, items: seq<CsvFile>, faults: map<string, ItemFaults>, available: bool, i: nat)
    requires i < |items|
    ensures HistRun(p, items[..i + 1], faults, available)
            == HistStep(HistRun(p, items[..i], faults, available), items[i], FaultsOf(faults, items[i].name), available)
  {
    assert items[..i + 1][..i] == items[..i];
  }

  /** One pass of main's loop body: download, then, when the download
      succeeded, load and always unlink. `outcomes` extends `prior` with the
      load's outcome; `abort` is the exception that ends the run, if any. */
  method Process(pool: Pool, quar: QuarantineDir, tmp: TempDir, items: seq<CsvFile>, i: nat,
                 faults: map<string, ItemFaults>, prior: seq<Outcome>, ghost p0: HistState, ghost available: bool)
    returns (outcomes: seq<Outcome>, abort: Option<Failure>)
    requires i < |items| && available == (pool.idle > 0)
    requires HistRun(p0, items[..i], faults, available)
             == HistState(World(pool.table.columns, pool.table.rows, quar.files), tmp.files, prior, None)
    modifies pool, pool.table, quar, tmp
    ensures HistRun(p0, items[..i + 1], faults, available)
            == HistState(World(pool.table.columns, pool.table.rows, quar.files), tmp.files, outcomes, abort)
    ensures pool.idle == old(pool.idle)
  {
    HistRunSnoc(p0, items, faults, available, i);
    var item := items[i];
    var f := FaultsOf(faults, item.name);
    outcomes := prior;
    abort := tmp.Download(item.name, item.lines, f.download);
    if abort.Some? {
      return;
    }
    var outcome, used := LoadCsv(pool, quar, CsvFile(item.name, tmp.files[item.name]), f.load);
    tmp.Unlink(item.name, f.unlinkFails);
    outcomes := outcomes + [outcome];
    if outcome.Err? {
      abort := Some(outcome.failure);
    }
  }

  /** main's loop over the matching items. */
  method LoadAll(pool: Pool, quar: QuarantineDir, tmp: TempDir, items: seq<CsvFile>, faults: map<string, ItemFaults>)
    returns (outcomes: seq<Outcome>, abort: Option<Failure>)
    modifies pool, pool.table, quar, tmp
    ensures HistRun(HistState(World(old(pool.table.columns), old(pool.table.rows), old(quar.files)),
                              old(tmp.files), [], None), items, faults, old(pool.idle) > 0)
            == HistState(World(pool.table.columns, pool.table.rows, quar.files), tmp.files, outcomes, abort)
    ensures pool.idle == old(pool.idle)
  {
    ghost var p0 := HistState(World(pool.table.columns, pool.table.rows, quar.files), tmp.files, [], None);
    ghost var available := pool.idle > 0;
    outcomes, abort := [], None;
    var i := 0;
    while i < |items| && abort.None?
      invariant 0 <= i <= |items|
      invariant HistRun(p0, items[..i], faults, available)
                == HistState(World(pool.table.columns, pool.table.rows, quar.files), tmp.files, outcomes, abort)
      invariant pool.idle == old(pool.idle)
    {
      outcomes, abort := Process(pool, quar, tmp, items, i, faults, outcomes, p0, available);
      i := i + 1;
    }
    if abort.Some? {
      HistStop(p0, items, faults, available, i);
    } else {
      assert items[..i] == items;
    }
  }

  /** historical.py's main after the SFTP session is open: the listing and
      each file's content stand for the server, `faults` for the environment. */
  method Backfill(pool: Pool, quar: QuarantineDir, tmp: TempDir, listing: seq<CsvFile>, faults: map<string, ItemFaults>)
    returns (outcomes: seq<Outcome>, abort: Option<Failure>)
    modifies pool, pool.table, quar, tmp
    ensures HistRun(HistState(World(old(pool.table.columns), old(pool.table.rows), old(quar.files)),
                              old(tmp.files), [], None), Matching(listing), faults, old(pool.idle) > 0)
            == HistState(World(pool.table.columns, pool.table.rows, quar.files), tmp.files, outcomes, abort)
    ensures pool.idle == old(pool.idle)
  {
    outcomes, abort := LoadAll(pool, quar, tmp, Matching(listing), faults);
  }

  /** Once the run has ended, the remaining items are not touched. */
  lemma {:induction false} HistStop(p: HistState, items: seq<CsvFile>, faults: map<string, ItemFaults>, available: bool, j: nat)
    requires j <= |items|
    requires HistRun(p, items[..j], faults, available).abort.Some?
    ensures HistRun(p, items, faults, available) == HistRun(p, items[..j], faults, available)
    decreases |items|
  {
    if j < |items| {
      var q := items[..|items| - 1];
      assert q[..j] == items[..j];
      HistStop(p, q, faults, available, j);
    } else {
      assert items[..j] == items;
    }
  }

  /** A load failure ends the run: every load before the last one succeeded,
      and the run goes through every item only when nothing failed. */
  lemma {:induction false} HistAbort(p: HistState, items: seq<CsvFile>, faults: map<string, ItemFaults>, available: bool)
    requires p.abort.None? && p.outcomes == []
    ensures var r := HistRun(p, items, faults, available);
      && |r.outcomes| <= |items|
      && (forall j :: 0 <= j < |r.outcomes| - 1 ==> r.outcomes[j].Ok?)
      && (r.abort.None? ==> |r.outcomes| == |items| && forall j :: 0 <= j < |r.outcomes| ==> r.outcomes[j].Ok?)
      && (r.abort.Some? && r.outcomes != [] && r.outcomes[|r.outcomes| - 1].Err? ==>
            r.abort == Some(r.outcomes[|r.outcomes| - 1].failure))
    decreases |items|
  {
    if items != [] {
      HistAbort(p, items[..|items| - 1], faults, available);
    }
  }

  /** A step for another file never brings back a copy that is gone. */
  lemma HistStepKeepsAbsent(s: HistState, item: CsvFile, f: ItemFaults, available: bool, name: string)
    requires name != item.name && name !in s.temp
    ensures name !in HistStep(s, item, f, available).temp
  {
    FetchSpec(s.temp, item.name, item.lines, f.download);
  }

  /** The step that loads a file deletes its copy, unless the unlink fails. */
  lemma HistStepRemoves(s: HistState, item: CsvFile, f: ItemFaults, available: bool)
    requires s.abort.None? && Fetch(s.temp, item.name, item.lines, f.download).err.None?
    requires !f.unlinkFails
    ensures item.name !in HistStep(s, item, f, available).temp
  {
  }

  /** Running the items from the state a prefix of them left is running
      them all. */
  lemma {:induction false} HistRunSplit(p: HistState, items: seq<CsvFile>, faults: map<string, ItemFaults>,
                                        available: bool, k: nat)
    requires k <= |items|
    ensures HistRun(HistRun(p, items[..k], faults, available), items[k..], faults, available)
            == HistRun(p, items, faults, available)
    decreases |items|
  {
    if k == |items| {
      assert items[..k] == items;
      assert items[k..] == [];
    } else {
      var n := |items| - 1;
      var q := items[..n];
      assert q[..k] == items[..k];
      assert items[k..][..|items[k..]| - 1] == q[k..];
      assert items[k..][|items[k..]| - 1] == items[n];
      HistRunSplit(p, q, faults, available, k);
    }
  }

  /** Items with other names never bring back a copy that is gone. */
  lemma {:induction false} HistKeepsAbsent(s: HistState, items: seq<CsvFile>, faults: map<string, ItemFaults>,
                                           available: bool, name: string)
    requires name !in s.temp
    requires forall j :: 0 <= j < |items| ==> items[j].name != name
    ensures name !in HistRun(s, items, faults, available).temp
    decreases |items|
  {
    if items != [] {
      var n := |items| - 1;
      HistKeepsAbsent(s, items[..n], faults, available, name);
      HistStepKeepsAbsent(HistRun(s, items[..n], faults, available), items[n], FaultsOf(faults, items[n].name),
                          available, name);
    }
  }

  /** The temporary copy of a file is gone after its load, whether the load
      succeeded or not, unless its unlink failed; when a file's name is not
      reused later in the run, that holds at the end too. */
  lemma HistRemovesCopies(p: HistState, items: seq<CsvFile>, faults: map<string, ItemFaults>,
                          available: bool, i: nat)
    requires i < |items|
    requires HistRun(p, items[..i], faults, available).abort.None?
    requires Fetch(HistRun(p, items[..i], faults, available).temp, items[i].name, items[i].lines,
                   FaultsOf(faults, items[i].name).download).err.None?
    requires !FaultsOf(faults, items[i].name).unlinkFails
    requires forall j :: i < j < |items| ==> items[j].name != items[i].name
    ensures items[i].name !in HistRun(p, items, faults, available).temp
  {
    var s := HistRun(p, items[..i], faults, available);
    HistRunSnoc(p, items, faults, available, i);
    HistStepRemoves(s, items[i], FaultsOf(faults, items[i].name), available);
    var rest := items[i + 1..];
    assert forall j :: 0 <= j < |rest| ==> rest[j] == items[i + 1 + j];
    HistKeepsAbsent(HistRun(p, items[..i + 1], faults, available), rest, faults, available, items[i].name);
    HistRunSplit(p, items, faults, available, i + 1);
  }

  /** A failed download ends the run before anything is loaded from that
      file: the database and the outcomes stay as the earlier files left them
      and the download's exception is the run's. */
  lemma HistDownloadFailure(p: HistState, items: seq<CsvFile>, faults: map<string, ItemFaults>,
                            available: bool, i: nat)
    requires i < |items|
    requires HistRun(p, items[..i], faults, available).abort.None?
    requires Fetch(HistRun(p, items[..i], faults, available).temp, items[i].name, items[i].lines,
                   FaultsOf(faults, items[i].name).download).err.Some?
    ensures var before := HistRun(p, items[..i], faults, available);
      var r := HistRun(p, items, faults, available);
      && r.world == before.world && r.outcomes == before.outcomes
      && r.abort == Fetch(before.temp, items[i].name, items[i].lines,
                          FaultsOf(faults, items[i].name).download).err
  {
    HistRunSnoc(p, items, faults, available, i);
    HistStop(p, items, faults, available, i + 1);
  }

  /** A listing with no matching name leaves everything as it was. */
  lemma {:induction false} HistNoMatch(p: HistState, listing: seq<CsvFile>, faults: map<string, ItemFaults>,
                                       available: bool)
    requires forall x :: x in listing ==> !IsHistorical(x.name)
    ensures HistRun(p, Matching(listing), faults, available) == p
  {
    MatchingSpec(listing);
  }
}
