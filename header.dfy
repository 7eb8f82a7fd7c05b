/** The header normaliser (dedup_case_insensitive): a raw CSV header becomes a
    duplicate-free column list plus the raw position each kept column came from. */
module Header {
  import opened Text

  datatype NormalizedHeader = NormalizedHeader(names: seq<string>, indexMap: seq<nat>)

  /** Comparison keys of the given raw columns. */
  function Seen(raw: seq<string>): set<string>
  {
    set i | 0 <= i < |raw| :: Norm(raw[i])
  }

  /** Reference definition: a raw column is kept, stripped, exactly when its key
      was not seen among the columns before it. */
  function Normalize(raw: seq<string>): (h: NormalizedHeader)
    ensures |h.names| == |h.indexMap| <= |raw|
    ensures forall k :: 0 <= k < |h.indexMap| ==> h.indexMap[k] < |raw|
    ensures forall k :: 0 <= k < |h.indexMap| ==> h.names[k] == Strip(raw[h.indexMap[k]])
    decreases |raw|
  {
    if raw == [] then NormalizedHeader([], [])
    else
      var prev := Normalize(raw[..|raw| - 1]);
      var col := raw[|raw| - 1];
      if Norm(col) in Seen(raw[..|raw| - 1]) then prev
      else NormalizedHeader(prev.names + [Strip(col)], prev.indexMap + [|raw| - 1])
  }

  lemma SeenSnoc(a: seq<string>, x: string)
    ensures Seen(a + [x]) == Seen(a) + {Norm(x)}
  {
    var q := a + [x];
    forall y | y in Seen(q) ensures y in Seen(a) + {Norm(x)} {
      var i :| 0 <= i < |q| && Norm(q[i]) == y;
      if i < |a| { assert q[i] == a[i]; }
    }
    forall y | y in Seen(a) ensures y in Seen(q) {
      var i :| 0 <= i < |a| && Norm(a[i]) == y;
      assert q[i] == a[i];
    }
    assert q[|a|] == x;
  }

  /** One more raw column: kept, stripped, exactly when its key is new. */
  lemma NormalizeSnoc(raw: seq<string>, col: string)
    ensures var prev := Normalize(raw);
      Normalize(raw + [col]) == if Norm(col) in Seen(raw) then prev
        else NormalizedHeader(prev.names + [Strip(col)], prev.indexMap + [|raw|])
  {
    assert (raw + [col])[..|raw|] == raw;
  }

  /** dedup_case_insensitive: one pass that keeps a set of keys already seen. */
  method Dedup(raw: seq<string>) returns (unique: seq<string>, posMap: seq<nat>)
    ensures NormalizedHeader(unique, posMap) == Normalize(raw)
  {
    var seen: set<string> := {};
    unique, posMap := [], [];
    for idx := 0 to |raw|
      invariant NormalizedHeader(unique, posMap) == Normalize(raw[..idx])
      invariant seen == Seen(raw[..idx])
    {
      var col := raw[idx];
      var norm := Norm(col);
      assert raw[..idx + 1] == raw[..idx] + [col];
      SeenSnoc(raw[..idx], col);
      assert raw[..idx + 1][..idx] == raw[..idx];
      if norm !in seen {
        seen := seen + {norm};
        unique := unique + [Strip(col)];
        posMap := posMap + [idx];
      }
    }
    assert raw[..|raw|] == raw;
  }

  predicate Increasing(m: seq<nat>)
  {
    forall a, b :: 0 <= a < b < |m| ==> m[a] < m[b]
  }

  /** Kept columns keep their raw order: the index map is strictly increasing. */
  lemma {:induction false} NormalizeIncreasing(raw: seq<string>)
    ensures Increasing(Normalize(raw).indexMap)
    decreases |raw|
  {
    if raw != [] {
      var n := |raw| - 1;
      var p := raw[..n];
      NormalizeIncreasing(p);
      var m := Normalize(p).indexMap;
      assert forall k :: 0 <= k < |m| ==> m[k] < n;
      if Normalize(raw).indexMap != m {
        assert Normalize(raw).indexMap == m + [n];
      }
    }
  }

  /** No two kept names are equal after strip and casefold. */
  lemma {:induction false} NormalizeUnique(raw: seq<string>)
    ensures forall a, b :: 0 <= a < b < |Normalize(raw).names| ==>
      Norm(Normalize(raw).names[a]) != Norm(Normalize(raw).names[b])
    decreases |raw|
  {
    if raw != [] {
      var p := raw[..|raw| - 1];
      NormalizeUnique(p);
      NormalizeCovers(p);
      var prev := Normalize(p);
      var col := raw[|raw| - 1];
      if Norm(col) !in Seen(p) {
        var names := prev.names + [Strip(col)];
        assert Normalize(raw).names == names;
        NormOfStrip(col);
        forall a, b | 0 <= a < b < |names| ensures Norm(names[a]) != Norm(names[b]) {
          assert names[a] == prev.names[a];
          if b == |prev.names| {
            assert Norm(prev.names[a]) in Seen(prev.names);
          } else {
            assert names[b] == prev.names[b];
          }
        }
      }
    }
  }

  /** The keys of the kept names are exactly the keys of the raw header: every
      raw column is represented, and nothing else is. */
  lemma {:induction false} NormalizeCovers(raw: seq<string>)
    ensures Seen(Normalize(raw).names) == Seen(raw)
    decreases |raw|
  {
    if raw != [] {
      var n := |raw| - 1;
      var p := raw[..n];
      var col := raw[n];
      NormalizeCovers(p);
      assert raw == p + [col];
      SeenSnoc(p, col);
      var prev := Normalize(p);
      if Norm(col) !in Seen(p) {
        SeenSnoc(prev.names, Strip(col));
        NormOfStrip(col);
      }
    }
  }

  /** First occurrence wins: raw column i is kept exactly when no earlier column
      has its key. */
  lemma {:induction false} NormalizeFirstOccurrence(raw: seq<string>, i: nat)
    requires i < |raw|
    ensures (i in Normalize(raw).indexMap) <==> Norm(raw[i]) !in Seen(raw[..i])
    decreases |raw|
  {
    var n := |raw| - 1;
    var p := raw[..n];
    var prev := Normalize(p);
    assert forall k :: 0 <= k < |prev.indexMap| ==> prev.indexMap[k] < n;
    if i < n {
      NormalizeFirstOccurrence(p, i);
      assert p[..i] == raw[..i];
      assert p[i] == raw[i];
      assert i != n;
    } else {
      assert p == raw[..i];
      assert i !in prev.indexMap;
    }
  }

  function StripAll(raw: seq<string>): (r: seq<string>)
    ensures |r| == |raw|
  {
    seq(|raw|, i requires 0 <= i < |raw| => Strip(raw[i]))
  }

  function Range(n: nat): (r: seq<nat>)
    ensures |r| == n
  {
    seq(n, i requires 0 <= i < n => i)
  }

  predicate Distinct(raw: seq<string>)
  {
    forall i, j :: 0 <= i < j < |raw| ==> Norm(raw[i]) != Norm(raw[j])
  }

  /** A header without duplicates is only stripped, and the index map is 0..n-1. */
  lemma {:induction false} NormalizeDistinct(raw: seq<string>)
    requires Distinct(raw)
    ensures Normalize(raw) == NormalizedHeader(StripAll(raw), Range(|raw|))
    decreases |raw|
  {
    if raw != [] {
      var n := |raw| - 1;
      var p := raw[..n];
      var col := raw[n];
      assert raw == p + [col];
      DistinctSplit(raw);
      NormalizeDistinct(p);
      NormalizeSnoc(p, col);
      StripAllSnoc(p, col);
      assert Range(|raw|) == Range(n) + [n];
    }
  }

  /** Dropping the last column keeps a header distinct, and that column's key
      is not among the others. */
  lemma DistinctSplit(raw: seq<string>)
    requires raw != [] && Distinct(raw)
    ensures Distinct(raw[..|raw| - 1]) && Norm(raw[|raw| - 1]) !in Seen(raw[..|raw| - 1])
  {
    var p := raw[..|raw| - 1];
    forall i, j | 0 <= i < j < |p| ensures Norm(p[i]) != Norm(p[j]) {
      assert p[i] == raw[i] && p[j] == raw[j];
    }
    forall i | 0 <= i < |p| ensures Norm(p[i]) != Norm(raw[|raw| - 1]) {
      assert p[i] == raw[i];
    }
  }

  lemma StripAllSnoc(p: seq<string>, col: string)
    ensures StripAll(p + [col]) == StripAll(p) + [Strip(col)]
  {
    var raw := p + [col];
    forall k | 0 <= k < |raw| ensures StripAll(raw)[k] == (StripAll(p) + [Strip(col)])[k] {
      if k < |p| { assert raw[k] == p[k]; }
    }
  }

  /** The strip keys of the reference scenario's columns. */
  lemma ScenarioKeys()
    ensures Strip("Email") == "Email" && Strip("Email ") == "Email" && Strip("Name") == "Name"
    ensures Norm("Name") != Norm("Email")
  {
    StripFixed("Email");
    assert StripLeft("Email ") == "Email ";
    assert "Email "[..5] == "Email";
    StripFixed("Name");
    assert Norm("Name")[0] == 'n' && Norm("Email")[0] == 'e';
  }

  /** A later column whose key repeats the first one's is dropped; the
      first one wins, and a third column with a new key is kept. */
  lemma FirstWins(a: string, b: string, c: string)
    requires Norm(b) == Norm(a) && Norm(c) != Norm(a)
    ensures Normalize([a, b, c]) == NormalizedHeader([Strip(a), Strip(c)], [0, 2])
  {
    var r0: seq<string> := [];
    var r1 := r0 + [a];
    var r2 := r1 + [b];
    assert Seen(r0) == {};
    NormalizeSnoc(r0, a);
    SeenSnoc(r0, a);
    assert Normalize(r1) == NormalizedHeader([Strip(a)], [0]);
    NormalizeSnoc(r1, b);
    SeenSnoc(r1, b);
    assert Normalize(r2) == Normalize(r1) && Seen(r2) == {Norm(a)};
    NormalizeSnoc(r2, c);
    assert [a, b, c] == r2 + [c];
  }

  /** The reference scenario: `Email` and `Email ` collide; the first one wins. */
  lemma ScenarioEmail()
    ensures Normalize(["Email", "Email ", "Name"]) == NormalizedHeader(["Email", "Name"], [0, 2])
  {
    ScenarioKeys();
    FirstWins("Email", "Email ", "Name");
  }
}
