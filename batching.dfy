/** Splitting the data rows into batches (chunked) and turning a batch of raw
    rows into insert tuples (the projection and filter of load_csv). */
module Batching {
  import opened Base

  function Flatten<T>(bs: seq<seq<T>>): seq<T>
    decreases |bs|
  {
    if bs == [] then [] else bs[0] + Flatten(bs[1..])
  }

  lemma {:induction false} FlattenAppend<T>(a: seq<seq<T>>, b: seq<seq<T>>)
    ensures Flatten(a + b) == Flatten(a) + Flatten(b)
    decreases |a|
  {
    if a == [] {
      assert a + b == b;
    } else {
      assert (a + b)[1..] == a[1..] + b;
      FlattenAppend(a[1..], b);
    }
  }

  lemma FlattenSnoc<T>(a: seq<seq<T>>, x: seq<T>)
    ensures Flatten(a + [x]) == Flatten(a) + x
  {
    FlattenAppend(a, [x]);
    assert Flatten([x]) == x + Flatten([x][1..]);
  }

  /** Reference definition of chunked(it, size): consecutive slices of `size`
      items, the last one possibly shorter; islice(it, 0) is empty, so a size of 0
      yields nothing. */
  function Chunks<T>(xs: seq<T>, size: nat): seq<seq<T>>
    decreases |xs|
  {
    if size == 0 || xs == [] then []
    else if |xs| <= size then [xs]
    else [xs[..size]] + Chunks(xs[size..], size)
  }

  /** The batches partition the input in order; each holds 1..size items and all
      but the last exactly size. */
  lemma ChunksSpec<T>(xs: seq<T>, size: nat)
    ensures var bs := Chunks(xs, size);
      && (size > 0 ==> Flatten(bs) == xs)
      && (size == 0 ==> bs == [])
      && (forall i :: 0 <= i < |bs| ==> 0 < |bs[i]| <= size)
      && (forall i :: 0 <= i < |bs| - 1 ==> |bs[i]| == size)
  {
    if size > 0 {
      ChunksFlatten(xs, size);
    }
    ChunksSizes(xs, size);
  }

  lemma {:induction false} ChunksFlatten<T>(xs: seq<T>, size: nat)
    requires size > 0
    ensures Flatten(Chunks(xs, size)) == xs
    decreases |xs|
  {
    if xs != [] {
      if |xs| <= size {
        assert Flatten([xs]) == xs + Flatten([xs][1..]);
      } else {
        var rest := Chunks(xs[size..], size);
        ChunksFlatten(xs[size..], size);
        var bs := [xs[..size]] + rest;
        assert Chunks(xs, size) == bs;
        assert bs[0] == xs[..size] && bs[1..] == rest;
        assert xs == xs[..size] + xs[size..];
      }
    }
  }

  lemma {:induction false} ChunksSizes<T>(xs: seq<T>, size: nat)
    ensures forall i :: 0 <= i < |Chunks(xs, size)| ==>
      0 < |Chunks(xs, size)[i]| <= size && (i < |Chunks(xs, size)| - 1 ==> |Chunks(xs, size)[i]| == size)
    decreases |xs|
  {
    if size > 0 && xs != [] && |xs| > size {
      var rest := Chunks(xs[size..], size);
      ChunksSizes(xs[size..], size);
      var bs := [xs[..size]] + rest;
      assert Chunks(xs, size) == bs;
      forall i | 0 <= i < |bs| ensures 0 < |bs[i]| <= size && (i < |bs| - 1 ==> |bs[i]| == size) {
        if i == 0 {
          assert bs[0] == xs[..size];
        } else {
          assert bs[i] == rest[i - 1];
        }
      }
    }
  }

  /** One step of chunked: the first batch is the first min(size, |xs|) items. */
  lemma ChunksStep<T>(xs: seq<T>, size: nat)
    requires size > 0 && xs != []
    ensures var n := Min(size, |xs|); Chunks(xs, size) == [xs[..n]] + Chunks(xs[n..], size)
  {
    if |xs| <= size {
      assert xs[..|xs|] == xs;
      assert xs[|xs|..] == [];
    }
  }

  /** chunked: repeatedly take up to `size` items until a take comes back empty. */
  method Chunked<T>(xs: seq<T>, size: nat) returns (batches: seq<seq<T>>)
    ensures batches == Chunks(xs, size)
  {
    var rest := xs;
    batches := [];
    while true
      invariant batches + Chunks(rest, size) == Chunks(xs, size)
      decreases |rest|
    {
      var n := Min(size, |rest|);
      var batch := rest[..n];
      if batch == [] {
        assert Chunks(rest, size) == [];
        break;
      }
      ChunksStep(rest, size);
      ghost var tail := Chunks(rest[n..], size);
      assert (batches + [batch]) + tail == batches + ([batch] + tail);
      rest := rest[n..];
      batches := batches + [batch];
    }
  }

  /** Sixty thousand rows in batches of 25,000 are three batches, the last of
      10,000 rows. */
  lemma ChunksSixtyThousand<T>(xs: seq<T>)
    requires |xs| == 60000
    ensures var bs := Chunks(xs, 25000);
      |bs| == 3 && |bs[0]| == 25000 && |bs[1]| == 25000 && |bs[2]| == 10000
  {
    var r1 := xs[25000..];
    var r2 := r1[25000..];
    assert Chunks(r2, 25000) == [r2];
    assert Chunks(r1, 25000) == [r1[..25000]] + [r2];
    assert Chunks(xs, 25000) == [xs[..25000]] + [r1[..25000]] + [r2];
  }

  /** Every raw position the index map names exists in a row of this width. */
  predicate Fits(idx: seq<nat>, width: nat)
  {
    forall k :: 0 <= k < |idx| ==> idx[k] < width
  }

  /** tuple([row[i] for i in idx_map] + [customer_key_const]) */
  function Project(row: seq<string>, idx: seq<nat>, key: string): (t: Row)
    requires Fits(idx, |row|)
    ensures |t| == |idx| + 1
  {
    seq(|idx|, k requires 0 <= k < |idx| => row[idx[k]]) + [key]
  }

  /** The insert tuples of one batch: rows shorter than the raw header are
      dropped, the others projected. */
  function Prepare(rows: seq<seq<string>>, width: nat, idx: seq<nat>, key: string): (d: seq<Row>)
    requires Fits(idx, width)
    ensures |d| <= |rows|
    decreases |rows|
  {
    if rows == [] then []
    else
      (if |rows[0]| >= width then [Project(rows[0], idx, key)] else [])
      + Prepare(rows[1..], width, idx, key)
  }

  /** Every tuple has one field per kept column plus the key, which comes last;
      each comes from a raw row at least as wide as the header, and every such
      row contributes its tuple. */
  lemma {:induction false} PrepareSpec(rows: seq<seq<string>>, width: nat, idx: seq<nat>, key: string)
    requires Fits(idx, width)
    ensures var d := Prepare(rows, width, idx, key);
      && (forall t :: t in d ==> |t| == |idx| + 1 && t[|idx|] == key)
      && (forall t :: t in d ==> exists r :: r in rows && |r| >= width && t == Project(r, idx, key))
      && (forall r :: r in rows && |r| >= width ==> Project(r, idx, key) in d)
    decreases |rows|
  {
    if rows != [] {
      PrepareSpec(rows[1..], width, idx, key);
      var d := Prepare(rows, width, idx, key);
      var head := if |rows[0]| >= width then [Project(rows[0], idx, key)] else [];
      var tail := Prepare(rows[1..], width, idx, key);
      assert d == head + tail;
      forall t | t in d ensures exists r :: r in rows && |r| >= width && t == Project(r, idx, key) {
        if t in head {
          assert rows[0] in rows;
        } else {
          var r :| r in rows[1..] && |r| >= width && t == Project(r, idx, key);
          assert r in rows;
        }
      }
      forall r | r in rows && |r| >= width ensures Project(r, idx, key) in d {
        if r != rows[0] {
          assert r in rows[1..];
        }
      }
    }
  }

  /** Preparing batch by batch and preparing the whole stream give the same tuples. */
  lemma {:induction false} PrepareAppend(a: seq<seq<string>>, b: seq<seq<string>>, width: nat, idx: seq<nat>, key: string)
    requires Fits(idx, width)
    ensures Prepare(a + b, width, idx, key) == Prepare(a, width, idx, key) + Prepare(b, width, idx, key)
    decreases |a|
  {
    if a == [] {
      assert a + b == b;
    } else {
      var h := if |a[0]| >= width then [Project(a[0], idx, key)] else [];
      assert (a + b)[1..] == a[1..] + b;
      assert (a + b)[0] == a[0];
      PrepareAppend(a[1..], b, width, idx, key);
      assert Prepare(a + b, width, idx, key) == h + (Prepare(a[1..], width, idx, key) + Prepare(b, width, idx, key));
      assert Prepare(a, width, idx, key) == h + Prepare(a[1..], width, idx, key);
    }
  }

  /** The prepared batches of a stream, in batch order. */
  function PrepareAll(bs: seq<seq<seq<string>>>, width: nat, idx: seq<nat>, key: string): (ds: seq<seq<Row>>)
    requires Fits(idx, width)
    ensures |ds| == |bs|
    ensures forall j :: 0 <= j < |bs| ==> ds[j] == Prepare(bs[j], width, idx, key)
  {
    seq(|bs|, j requires 0 <= j < |bs| => Prepare(bs[j], width, idx, key))
  }

  /** Chunking does not change which tuples are produced, nor their order. */
  lemma {:induction false} PrepareAllFlatten(bs: seq<seq<seq<string>>>, width: nat, idx: seq<nat>, key: string)
    requires Fits(idx, width)
    ensures Flatten(PrepareAll(bs, width, idx, key)) == Prepare(Flatten(bs), width, idx, key)
    decreases |bs|
  {
    if bs != [] {
      PrepareAllFlatten(bs[1..], width, idx, key);
      PrepareAppend(bs[0], Flatten(bs[1..]), width, idx, key);
      assert PrepareAll(bs, width, idx, key)[1..] == PrepareAll(bs[1..], width, idx, key);
    }
  }
}
