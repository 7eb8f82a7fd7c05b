/** Values shared by every part of the ingestion engine: rows, failures and the
    source-file record with its CustomerKey (the file's stem). */
module Base {

  datatype Option<+T> = None | Some(value: T)

  /** One tuple handed to the insert: projected values followed by the file's key. */
  type Row = seq<string>

  /** The exceptions the engine can raise or propagate. */
  datatype Failure =
    | NoHeader            // next(rdr) on an empty file raises StopIteration
    | DbError(errno: int) // a mysql.connector error, by its error number
    | PoolExhausted       // pool.get_connection() with every connection checked out
    | UnboundCursor       // daily.py's `finally` calls cur.close() before cur was ever bound
    | PermissionDenied    // the local temporary copy is held open by another program
    | TransferFailed      // the SFTP download itself failed

  /** Result of loading one file: the row count load_csv logs on success (it
      returns nothing), or the exception raised. */
  datatype Outcome = Ok(total: nat) | Err(failure: Failure)

  /** A CSV file as the csv reader sees it: its name and its parsed lines (header first). */
  datatype CsvFile = CsvFile(name: string, lines: seq<seq<string>>)

  function Lookup<K, V>(m: map<K, V>, k: K): (r: Option<V>)
    ensures r.Some? <==> k in m
    ensures r.Some? ==> r.value == m[k]
  {
    if k in m then Some(m[k]) else None
  }

  function Min(a: nat, b: nat): nat { if a <= b then a else b }

  /** Position of the last '.' in name, or -1 (Python's str.rfind('.')). */
  function LastDot(name: string): (i: int)
    ensures -1 <= i < |name|
    ensures i >= 0 ==> name[i] == '.'
    ensures forall j :: i < j < |name| ==> name[j] != '.'
    decreases |name|
  {
    if name == [] then -1
    else if name[|name| - 1] == '.' then |name| - 1
    else LastDot(name[..|name| - 1])
  }

  /** pathlib's PurePath.stem: the name without its last suffix; a leading or
      trailing dot does not start a suffix. */
  function Stem(name: string): (s: string)
    ensures |s| <= |name| && s == name[..|s|]
    ensures s != name ==> name[|s|] == '.' && 0 < |s| < |name| - 1
    ensures s != name ==> forall j :: |s| < j < |name| ==> name[j] != '.'
    ensures s == name ==>
      (|name| > 0 && name[|name| - 1] == '.') || forall j :: 0 < j < |name| ==> name[j] != '.'
  {
    var i := LastDot(name);
    if 0 < i < |name| - 1 then name[..i] else name
  }

  /** The stem of `base.ext` is `base` whenever the extension holds no dot: only
      the last suffix is removed. */
  lemma StemOfSuffix(base: string, ext: string)
    requires base != [] && ext != [] && '.' !in ext
    ensures Stem(base + "." + ext) == base
  {
    var name := base + "." + ext;
    assert name[|base|] == '.';
    forall j | |base| < j < |name| ensures name[j] != '.' {
      assert name[j] == ext[j - |base| - 1];
    }
    assert name[..|base|] == base;
  }

  /** The key of a file named `base.csv` is `base`. */
  lemma StemOfCsv(base: string)
    requires base != []
    ensures Stem(base + ".csv") == base
  {
    assert base + "." + "csv" == base + ".csv";
    StemOfSuffix(base, "csv");
  }
}
