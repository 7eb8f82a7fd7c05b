/** Python's str.strip() and str.casefold() as used on column names.
    Strip removes exactly the characters for which str.isspace() holds;
    Casefold folds the 26 ASCII capitals only. */
module Text {

  /** The code points Python's str.isspace() accepts. */
  predicate IsSpace(c: char)
  {
    || c == ' '
    || ('\t' <= c <= '\r')
    || ('\U{1C}' <= c <= '\U{1F}')
    || c == '\U{85}' || c == '\U{A0}' || c == '\U{1680}'
    || ('\U{2000}' <= c <= '\U{200A}')
    || c == '\U{2028}' || c == '\U{2029}' || c == '\U{202F}' || c == '\U{205F}' || c == '\U{3000}'
  }

  function StripLeft(s: string): (r: string)
    ensures |r| <= |s|
    decreases |s|
  {
    if s != [] && IsSpace(s[0]) then StripLeft(s[1..]) else s
  }

  function StripRight(s: string): (r: string)
    ensures |r| <= |s|
    decreases |s|
  {
    if s != [] && IsSpace(s[|s| - 1]) then StripRight(s[..|s| - 1]) else s
  }

  /** str.strip(). */
  function Strip(s: string): (r: string)
    ensures |r| <= |s|
  {
    StripRight(StripLeft(s))
  }

  lemma {:induction false} StripLeftSpec(s: string)
    ensures var r := StripLeft(s);
      && r == s[|s| - |r|..]
      && (r == [] || !IsSpace(r[0]))
      && forall i :: 0 <= i < |s| - |r| ==> IsSpace(s[i])
    decreases |s|
  {
    if s != [] && IsSpace(s[0]) { StripLeftSpec(s[1..]); }
  }

  lemma {:induction false} StripRightSpec(s: string)
    ensures var r := StripRight(s);
      && r == s[..|r|]
      && (r == [] || !IsSpace(r[|r| - 1]))
      && forall i :: |r| <= i < |s| ==> IsSpace(s[i])
    decreases |s|
  {
    if s != [] && IsSpace(s[|s| - 1]) { StripRightSpec(s[..|s| - 1]); }
  }

  /** What str.strip() keeps neither starts nor ends with white space. */
  lemma StripEdges(s: string)
    ensures var r := Strip(s); r == [] || (!IsSpace(r[0]) && !IsSpace(r[|r| - 1]))
  {
    var t := StripLeft(s);
    StripLeftSpec(s);
    StripRightSpec(t);
    var r := StripRight(t);
    if r != [] {
      assert r[0] == t[0];
    }
  }

  lemma {:induction false} StripLeftSuffix(s: string)
    ensures StripLeft(s) == s[|s| - |StripLeft(s)|..]
    decreases |s|
  {
    if s != [] && IsSpace(s[0]) {
      StripLeftSuffix(s[1..]);
      assert s[1..][|s| - 1 - |StripLeft(s[1..])|..] == s[|s| - |StripLeft(s[1..])|..];
    }
  }

  lemma {:induction false} StripRightPrefix(s: string)
    ensures StripRight(s) == s[..|StripRight(s)|]
    decreases |s|
  {
    if s != [] && IsSpace(s[|s| - 1]) {
      StripRightPrefix(s[..|s| - 1]);
    }
  }

  /** What str.strip() keeps is the slice of s after the leading white space. */
  lemma StripSlice(s: string)
    ensures var r := Strip(s);
      var lead := |s| - |StripLeft(s)|;
      lead + |r| <= |s| && r == s[lead..lead + |r|]
  {
    var t := StripLeft(s);
    StripLeftSuffix(s);
    StripRightPrefix(t);
    var r := StripRight(t);
    var lead := |s| - |t|;
    assert s[lead..][..|r|] == s[lead..lead + |r|];
  }

  /** What str.strip() removes, on either side of the kept slice, is white space. */
  lemma StripRemoved(s: string)
    ensures var r := Strip(s);
      var lead := |s| - |StripLeft(s)|;
      && (forall i :: 0 <= i < lead ==> IsSpace(s[i]))
      && (forall i :: lead + |r| <= i < |s| ==> IsSpace(s[i]))
  {
    var t := StripLeft(s);
    StripLeftSpec(s);
    StripRightSpec(t);
    var r := StripRight(t);
    var lead := |s| - |t|;
    assert t == s[lead..];
    forall i | lead + |r| <= i < |s| ensures IsSpace(s[i]) {
      assert s[lead..][i - lead] == s[i];
    }
  }

  /** What str.strip() removes is white space, and what it keeps neither starts
      nor ends with white space. */
  lemma StripSpec(s: string)
    ensures var r := Strip(s);
      && (r == [] || (!IsSpace(r[0]) && !IsSpace(r[|r| - 1])))
      && var lead := |s| - |StripLeft(s)|;
      && lead + |r| <= |s| && r == s[lead..lead + |r|]
      && (forall i :: 0 <= i < lead ==> IsSpace(s[i]))
      && (forall i :: lead + |r| <= i < |s| ==> IsSpace(s[i]))
  {
    StripEdges(s);
    StripSlice(s);
    StripRemoved(s);
  }

  function LowerChar(c: char): char
  {
    if 'A' <= c <= 'Z' then (c as int + 32) as char else c
  }

  /** str.casefold(), restricted to ASCII capitals. */
  function Casefold(s: string): (r: string)
    ensures |r| == |s|
    decreases |s|
  {
    if s == [] then [] else [LowerChar(s[0])] + Casefold(s[1..])
  }

  /** The comparison key of a header column: col.strip().casefold(). */
  function Norm(s: string): string
  {
    Casefold(Strip(s))
  }

  /** Casefold(col) values of a list of column names. */
  function Folds(cols: seq<string>): set<string>
  {
    set c | c in cols :: Casefold(c)
  }

  /** A string with no white space at either end is its own strip. */
  lemma StripFixed(t: string)
    requires t == [] || (!IsSpace(t[0]) && !IsSpace(t[|t| - 1]))
    ensures Strip(t) == t
  {
  }

  lemma StripIdempotent(s: string)
    ensures Strip(Strip(s)) == Strip(s)
  {
    StripSpec(s);
    StripFixed(Strip(s));
  }

  /** The stored (stripped) name has the same comparison key as the raw name. */
  lemma NormOfStrip(s: string)
    ensures Norm(Strip(s)) == Norm(s)
  {
    StripIdempotent(s);
  }

  lemma FoldsPrefix(a: seq<string>, b: seq<string>)
    requires a <= b
    ensures Folds(a) <= Folds(b)
  {
    forall x | x in Folds(a) ensures x in Folds(b) {
      var c :| c in a && Casefold(c) == x;
      assert c in b;
    }
  }

  lemma FoldsSnoc(a: seq<string>, c: string)
    ensures Folds(a + [c]) == Folds(a) + {Casefold(c)}
  {
    assert forall x :: x in a + [c] <==> x in a || x == c;
  }
}
