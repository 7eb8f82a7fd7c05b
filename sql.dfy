/** The INSERT statement of build_insert: the column list in order, then one
    `%s` placeholder per column. */
module Sql {

  const TABLE_NAME := "sfmc_data_extension_item"

  /** The text before the column list. */
  const INSERT_HEAD := "INSERT INTO " + TABLE_NAME + " ("

  /** sep.join(parts) */
  function Join(sep: string, parts: seq<string>): string
    decreases |parts|
  {
    if parts == [] then []
    else if |parts| == 1 then parts[0]
    else parts[0] + sep + Join(sep, parts[1..])
  }

  /** [s] * n */
  function Repeat(s: string, n: nat): (r: seq<string>)
    ensures |r| == n
    ensures forall i :: 0 <= i < n ==> r[i] == s
  {
    seq(n, _ => s)
  }

  /** ", ".join(["%s"] * n) */
  function Placeholders(n: nat): string
  {
    Join(", ", Repeat("%s", n))
  }

  /** build_insert(cols) */
  function BuildInsert(cols: seq<string>): string
  {
    INSERT_HEAD + Join(", ", cols) + ") VALUES (" + Placeholders(|cols|) + ")"
  }

  /** Number of occurrences of c in s. */
  function Count(c: char, s: string): nat
    decreases |s|
  {
    if s == [] then 0 else (if s[0] == c then 1 else 0) + Count(c, s[1..])
  }

  lemma {:induction false} CountAppend(c: char, a: string, b: string)
    ensures Count(c, a + b) == Count(c, a) + Count(c, b)
    decreases |a|
  {
    if a == [] {
      assert a + b == b;
    } else {
      assert (a + b)[1..] == a[1..] + b;
      assert (a + b)[0] == a[0];
      CountAppend(c, a[1..], b);
    }
  }

  lemma {:induction false} CountAbsent(c: char, s: string)
    requires c !in s
    ensures Count(c, s) == 0
    decreases |s|
  {
    if s != [] {
      assert s == [s[0]] + s[1..];
      CountAbsent(c, s[1..]);
    }
  }

  /** Reads a ", "-separated list back into its items. */
  function SplitList(s: string): (r: seq<string>)
    ensures |r| >= 1
    decreases |s|
  {
    if s == [] then [[]]
    else if |s| >= 2 && s[0] == ',' && s[1] == ' ' then [[]] + SplitList(s[2..])
    else
      var rest := SplitList(s[1..]);
      [[s[0]] + rest[0]] + rest[1..]
  }

  predicate NoComma(s: string)
  {
    forall i :: 0 <= i < |s| ==> s[i] != ','
  }

  lemma {:induction false} SplitSingle(a: string)
    requires NoComma(a)
    ensures SplitList(a) == [a]
    decreases |a|
  {
    if a != [] {
      assert NoComma(a[1..]) by {
        forall i | 0 <= i < |a[1..]| ensures a[1..][i] != ',' { assert a[1..][i] == a[i + 1]; }
      }
      SplitSingle(a[1..]);
      assert [a[0]] + a[1..] == a;
    }
  }

  lemma {:induction false} SplitCons(a: string, rest: string)
    requires NoComma(a)
    ensures SplitList(a + ", " + rest) == [a] + SplitList(rest)
    decreases |a|
  {
    var s := a + ", " + rest;
    if a == [] {
      assert s == ", " + rest;
      assert s[2..] == rest;
    } else {
      assert NoComma(a[1..]) by {
        forall i | 0 <= i < |a[1..]| ensures a[1..][i] != ',' { assert a[1..][i] == a[i + 1]; }
      }
      SplitCons(a[1..], rest);
      assert s[1..] == a[1..] + ", " + rest;
      assert s[0] == a[0];
      assert [a[0]] + a[1..] == a;
    }
  }

  /** Joining with ", " and splitting again gives back the items, in order,
      provided no item contains a comma. */
  lemma {:induction false} SplitJoin(parts: seq<string>)
    requires parts != []
    requires forall i :: 0 <= i < |parts| ==> NoComma(parts[i])
    ensures SplitList(Join(", ", parts)) == parts
    decreases |parts|
  {
    if |parts| == 1 {
      SplitSingle(parts[0]);
    } else {
      SplitJoin(parts[1..]);
      SplitCons(parts[0], Join(", ", parts[1..]));
    }
  }

  /** n placeholders hold n percent signs. */
  lemma {:induction false} PlaceholdersCount(n: nat)
    ensures Count('%', Placeholders(n)) == n
    decreases n
  {
    if n > 1 {
      PlaceholdersCount(n - 1);
      assert Repeat("%s", n)[1..] == Repeat("%s", n - 1);
      CountAppend('%', "%s", ", ");
      CountAppend('%', "%s" + ", ", Placeholders(n - 1));
    } else if n == 1 {
      assert Placeholders(1) == "%s";
    }
  }

  /** The placeholder list consists of exactly n `%s` items. */
  lemma PlaceholdersSplit(n: nat)
    requires n > 0
    ensures SplitList(Placeholders(n)) == Repeat("%s", n)
  {
    SplitJoin(Repeat("%s", n));
  }

  /** The statement inserts into the ingestion table and lists the columns in
      their given order right after the table name. */
  lemma BuildInsertColumns(cols: seq<string>)
    requires cols != []
    requires forall i :: 0 <= i < |cols| ==> NoComma(cols[i])
    ensures var sql := BuildInsert(cols);
      var p := |INSERT_HEAD|;
      var k := |Join(", ", cols)|;
      && p + k <= |sql| && sql[..p] == INSERT_HEAD
      && SplitList(sql[p..p + k]) == cols
  {
    var list := Join(", ", cols);
    SliceMiddle(INSERT_HEAD, list, ") VALUES (", Placeholders(|cols|), ")");
    SplitJoin(cols);
  }

  /** The first two pieces of a concatenation sit at their offsets. */
  lemma SliceMiddle(a: string, b: string, c: string, d: string, e: string)
    ensures |a| + |b| <= |a + b + c + d + e|
    ensures (a + b + c + d + e)[..|a|] == a && (a + b + c + d + e)[|a|..|a| + |b|] == b
  {
  }

  /** The fixed text of the statement holds no '%'. */
  lemma HeadCount()
    ensures Count('%', INSERT_HEAD) == 0
  {
    CountAbsent('%', INSERT_HEAD);
  }

  lemma ValuesCount()
    ensures Count('%', ") VALUES (") == 0 && Count('%', ")") == 0
  {
    CountAbsent('%', ") VALUES (");
  }

  lemma CountConcat(c: char, a: string, b: string, d: string, e: string, f: string)
    ensures Count(c, a + b + d + e + f) == Count(c, a) + Count(c, b) + Count(c, d) + Count(c, e) + Count(c, f)
  {
    CountAppend(c, a, b);
    CountAppend(c, a + b, d);
    CountAppend(c, a + b + d, e);
    CountAppend(c, a + b + d + e, f);
  }

  /** When no column name contains '%', the statement carries exactly one
      placeholder per column. */
  lemma BuildInsertPlaceholders(cols: seq<string>)
    requires forall i :: 0 <= i < |cols| ==> Count('%', cols[i]) == 0
    ensures Count('%', BuildInsert(cols)) == |cols|
  {
    JoinCount(cols);
    PlaceholdersCount(|cols|);
    HeadCount();
    ValuesCount();
    CountConcat('%', INSERT_HEAD, Join(", ", cols), ") VALUES (", Placeholders(|cols|), ")");
  }

  lemma {:induction false} JoinCount(parts: seq<string>)
    requires forall i :: 0 <= i < |parts| ==> Count('%', parts[i]) == 0
    ensures Count('%', Join(", ", parts)) == 0
    decreases |parts|
  {
    if |parts| > 1 {
      JoinCount(parts[1..]);
      CountAppend('%', parts[0], ", ");
      CountAppend('%', parts[0] + ", ", Join(", ", parts[1..]));
      assert Count('%', ", ") == 0;
    }
  }
}
