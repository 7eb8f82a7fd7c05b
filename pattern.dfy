/** The file-name filter of historical.py's main: fnmatch against
    PATTERN, whose only wildcard is `*` (any run of characters). */
module Pattern {

  const HISTORICAL := "_Historical"
  const SUFFIX := ".csv"
  /** "*_Historical*.csv", grouped as the matcher consumes it */
  const PATTERN := "*" + (HISTORICAL + ("*" + SUFFIX))

  /** fnmatch for a pattern made of `*` and literal characters, compared as
      they are (the POSIX behaviour, where os.path.normcase changes nothing). */
  function Glob(p: string, s: string): bool
    decreases |p| + |s|
  {
    if p == [] then s == []
    else if p[0] == '*' then Glob(p[1..], s) || (s != [] && Glob(p, s[1..]))
    else s != [] && s[0] == p[0] && Glob(p[1..], s[1..])
  }

  predicate NoStar(lit: string)
  {
    forall i :: 0 <= i < |lit| ==> lit[i] != '*'
  }

  /** A literal piece of the pattern must match the same characters. */
  lemma {:induction false} GlobLiteral(lit: string, rest: string, s: string)
    requires NoStar(lit)
    ensures Glob(lit + rest, s) <==> |lit| <= |s| && s[..|lit|] == lit && Glob(rest, s[|lit|..])
    decreases |lit|
  {
    if lit != [] {
      assert (lit + rest)[0] == lit[0];
      assert (lit + rest)[1..] == lit[1..] + rest;
      assert NoStar(lit[1..]) by {
        forall i | 0 <= i < |lit[1..]| ensures lit[1..][i] != '*' { assert lit[1..][i] == lit[i + 1]; }
      }
      if s != [] {
        GlobLiteral(lit[1..], rest, s[1..]);
        if |lit| <= |s| {
          assert s[..|lit|] == [s[0]] + s[1..][..|lit| - 1];
          assert lit == [lit[0]] + lit[1..];
          assert s[1..][|lit| - 1..] == s[|lit|..];
        }
      }
    } else {
      assert lit + rest == rest;
      assert s[..0] == lit && s[0..] == s;
    }
  }

  /** A `*` matches any run of characters, the empty one included. */
  lemma {:induction false} GlobStar(rest: string, s: string)
    ensures Glob("*" + rest, s) <==> exists k :: 0 <= k <= |s| && Glob(rest, s[k..])
    decreases |s|
  {
    var p := "*" + rest;
    assert p[0] == '*' && p[1..] == rest;
    if s == [] {
      assert Glob(p, s) == Glob(rest, s);
      assert s[0..] == s;
    } else {
      GlobStar(rest, s[1..]);
      if Glob(p, s) {
        if !Glob(rest, s) {
          assert Glob(p, s[1..]);
          var k :| 0 <= k <= |s[1..]| && Glob(rest, s[1..][k..]);
          assert s[1..][k..] == s[k + 1..];
        } else {
          assert s[0..] == s;
        }
      }
      if exists k :: 0 <= k <= |s| && Glob(rest, s[k..]) {
        var k :| 0 <= k <= |s| && Glob(rest, s[k..]);
        if k > 0 {
          assert s[1..][k - 1..] == s[k..];
        } else {
          assert s[0..] == s;
        }
      }
    }
  }

  /** "_Historical" occurs in s at position i. */
  predicate MarkerAt(s: string, i: nat)
  {
    i + |HISTORICAL| <= |s| && s[i..i + |HISTORICAL|] == HISTORICAL
  }

  predicate EndsWithSuffix(s: string)
  {
    |SUFFIX| <= |s| && s[|s| - |SUFFIX|..] == SUFFIX
  }

  /** The pattern in plain terms: the name ends in ".csv", and "_Historical"
      occurs before that suffix. */
  predicate IsHistorical(s: string)
  {
    EndsWithSuffix(s) && exists i: nat :: MarkerAt(s, i) && i + |HISTORICAL| + |SUFFIX| <= |s|
  }

  /** A pattern without `*` matches only itself. */
  lemma GlobExact(lit: string, s: string)
    requires NoStar(lit)
    ensures Glob(lit, s) <==> s == lit
  {
    GlobLiteral(lit, [], s);
    assert lit + [] == lit;
    if |lit| <= |s| && s[..|lit|] == lit {
      assert Glob([], s[|lit|..]) <==> s[|lit|..] == [];
      if s[|lit|..] == [] {
        assert s == s[..|lit|] + s[|lit|..];
      }
    }
  }

  lemma LiteralsNoStar()
    ensures NoStar(SUFFIX) && NoStar(HISTORICAL)
  {
  }

  /** `*` followed by a literal matches exactly the strings ending in it. */
  lemma GlobTail(suf: string, t: string)
    requires NoStar(suf)
    ensures Glob("*" + suf, t) <==> |suf| <= |t| && t[|t| - |suf|..] == suf
  {
    GlobStar(suf, t);
    if Glob("*" + suf, t) {
      var k :| 0 <= k <= |t| && Glob(suf, t[k..]);
      GlobExact(suf, t[k..]);
      assert t[|t| - |suf|..] == t[k..];
    }
    if |suf| <= |t| && t[|t| - |suf|..] == suf {
      GlobExact(suf, t[|t| - |suf|..]);
    }
  }

  /** A literal, a `*` and a literal: the first literal starts u and the
      second ends it without overlapping. */
  lemma GlobMid(lit: string, suf: string, u: string)
    requires NoStar(lit) && NoStar(suf)
    ensures Glob(lit + ("*" + suf), u) <==>
      |lit| + |suf| <= |u| && u[..|lit|] == lit && u[|u| - |suf|..] == suf
  {
    if Glob(lit + ("*" + suf), u) {
      GlobMidMatch(lit, suf, u);
    }
    if |lit| + |suf| <= |u| && u[..|lit|] == lit && u[|u| - |suf|..] == suf {
      GlobMidBuild(lit, suf, u);
    }
  }

  lemma GlobMidMatch(lit: string, suf: string, u: string)
    requires NoStar(lit) && NoStar(suf) && Glob(lit + ("*" + suf), u)
    ensures |lit| + |suf| <= |u| && u[..|lit|] == lit && u[|u| - |suf|..] == suf
  {
    GlobLiteral(lit, "*" + suf, u);
    var t := u[|lit|..];
    GlobTail(suf, t);
    assert t[|t| - |suf|..] == u[|u| - |suf|..];
  }

  lemma GlobMidBuild(lit: string, suf: string, u: string)
    requires NoStar(lit) && NoStar(suf)
    requires |lit| + |suf| <= |u| && u[..|lit|] == lit && u[|u| - |suf|..] == suf
    ensures Glob(lit + ("*" + suf), u)
  {
    GlobLiteral(lit, "*" + suf, u);
    var t := u[|lit|..];
    GlobTail(suf, t);
    assert t[|t| - |suf|..] == u[|u| - |suf|..];
  }

  /** The part of the pattern after the leading `*`, matched from position k. */
  lemma GlobAt(s: string, k: nat)
    requires k <= |s|
    ensures Glob(HISTORICAL + ("*" + SUFFIX), s[k..]) <==>
      MarkerAt(s, k) && k + |HISTORICAL| + |SUFFIX| <= |s| && EndsWithSuffix(s)
  {
    LiteralsNoStar();
    var u := s[k..];
    GlobMid(HISTORICAL, SUFFIX, u);
    if k + |HISTORICAL| <= |s| {
      assert u[..|HISTORICAL|] == s[k..k + |HISTORICAL|];
    }
    if |SUFFIX| <= |u| {
      assert u[|u| - |SUFFIX|..] == s[|s| - |SUFFIX|..];
    }
  }

  /** fnmatch(name, PATTERN) holds exactly for the names IsHistorical describes. */
  lemma GlobHistorical(s: string)
    ensures Glob(PATTERN, s) <==> IsHistorical(s)
  {
    var mid := HISTORICAL + ("*" + SUFFIX);
    GlobStar(mid, s);
    if Glob(PATTERN, s) {
      var k :| 0 <= k <= |s| && Glob(mid, s[k..]);
      GlobAt(s, k);
    }
    if IsHistorical(s) {
      var i: nat :| MarkerAt(s, i) && i + |HISTORICAL| + |SUFFIX| <= |s|;
      GlobAt(s, i);
    }
  }

  /** Any text, the marker, any text and the suffix make a historical name. */
  lemma HistoricalName(x: string, y: string)
    ensures IsHistorical(x + HISTORICAL + y + SUFFIX)
  {
    var s := x + HISTORICAL + y + SUFFIX;
    assert s[|x|..|x| + |HISTORICAL|] == HISTORICAL;
    assert s[|s| - |SUFFIX|..] == SUFFIX;
    assert MarkerAt(s, |x|);
  }

  /** A name with the marker and the suffix is picked up. */
  lemma GlobExampleMatch()
    ensures Glob(PATTERN, "Vendas_Historical_2024.csv")
  {
    var a := "Vendas" + HISTORICAL;
    assert a == "Vendas_Historical";
    var b := a + "_2024";
    assert b == "Vendas_Historical_2024";
    assert b + SUFFIX == "Vendas_Historical_2024.csv";
    HistoricalName("Vendas", "_2024");
    GlobHistorical("Vendas_Historical_2024.csv");
  }

  /** A name without the suffix is not. */
  lemma GlobExampleReject()
    ensures !Glob(PATTERN, "Vendas_Historical.txt")
  {
    var c := "Vendas_Historical.txt";
    GlobHistorical(c);
    assert c[|c| - 1] == 't';
  }
}
