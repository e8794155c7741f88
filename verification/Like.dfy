/** SQLite's LIKE operator with ESCAPE '\', and the escaping that turns a directory prefix
    into a pattern. */
module Like {
  import opened Strings

  /** Whether two characters are equal to the matcher. */
  type CharEq = (char, char) -> bool

  /** ASCII case folding, the equality LIKE uses unless a pragma says otherwise. */
  function Fold(c: char): char {
    if 'A' <= c <= 'Z' then (c as int + 32) as char else c
  }

  predicate FoldEq(a: char, b: char) { Fold(a) == Fold(b) }

  /** Equal, or the two cases of one letter from A to Z. */
  lemma FoldEqIff(a: char, b: char)
    ensures FoldEq(a, b)
       <==> a == b || ('A' <= a <= 'Z' && b as int == a as int + 32) || ('A' <= b <= 'Z' && a as int == b as int + 32)
  {}

  predicate SameUpToCase(a: string, b: string) {
    |a| == |b| && forall i :: 0 <= i < |a| ==> FoldEq(a[i], b[i])
  }

  /** `s LIKE pattern ESCAPE '\'`: "%" is any run of characters, "_" any one character, and the
      character after a backslash stands for itself. A trailing backslash matches nothing. */
  predicate Matches(pattern: string, s: string, eq: CharEq)
    decreases |pattern|, |s|
  {
    if pattern == [] then s == []
    else if pattern[0] == '%' then Matches(pattern[1..], s, eq) || (s != [] && Matches(pattern, s[1..], eq))
    else if pattern[0] == '\\'
      then |pattern| > 1 && s != [] && eq(pattern[1], s[0]) && Matches(pattern[2..], s[1..], eq)
    else s != [] && (pattern[0] == '_' || eq(pattern[0], s[0])) && Matches(pattern[1..], s[1..], eq)
  }

  /** The wildcards of the operator: "%" skips any number of characters, "_" exactly one, and the character after a
      backslash, like any other character, stands for itself. */
  lemma {:induction false} LikeRules(pattern: string, s: string, c: char, eq: CharEq)
    ensures Matches("", s, eq) <==> s == ""
    ensures Matches("%" + pattern, s, eq) <==> exists k :: 0 <= k <= |s| && Matches(pattern, s[k..], eq)
    ensures Matches("_" + pattern, s, eq) <==> s != "" && Matches(pattern, s[1..], eq)
    ensures Matches(['\\', c] + pattern, s, eq) <==> s != "" && eq(c, s[0]) && Matches(pattern, s[1..], eq)
    ensures c !in {'%', '_', '\\'} ==>
      (Matches([c] + pattern, s, eq) <==> s != "" && eq(c, s[0]) && Matches(pattern, s[1..], eq))
    decreases |s|
  {
    ConcatTail("%", pattern);
    ConcatTail("_", pattern);
    ConcatTail([c], pattern);
    assert "%"[1..] + pattern == pattern && "_"[1..] + pattern == pattern && [c][1..] + pattern == pattern;
    assert (['\\', c] + pattern)[2..] == pattern;
    assert s[0..] == s;
    if s != "" {
      LikeRules(pattern, s[1..], c, eq);
      if k :| 0 <= k <= |s[1..]| && Matches(pattern, s[1..][k..], eq) { assert s[k + 1..] == s[1..][k..]; }
      if k :| 0 < k <= |s| && Matches(pattern, s[k..], eq) { assert s[1..][k - 1..] == s[k..]; }
    }
  }

  predicate IsSpecial(c: char) { c in {'%', '_', '\\'} }

  function EscapeChar(c: char): string { if IsSpecial(c) then ['\\', c] else [c] }

  function Escape(s: string): (r: string) {
    if s == [] then [] else EscapeChar(s[0]) + Escape(s[1..])
  }

  lemma {:induction false} EscapeSnoc(s: string, c: char)
    ensures Escape(s + [c]) == Escape(s) + EscapeChar(c)
  {
    if s == [] {
      assert s + [c] == [c] && EscapeChar(c) + [] == EscapeChar(c);
    } else {
      EscapeSnoc(s[1..], c);
      ConcatTail(s, [c]);
      ConcatAssoc(EscapeChar(s[0]), Escape(s[1..]), EscapeChar(c));
    }
  }

  /** `escapeLike`. The special characters are single bytes in UTF-8, so its loop over bytes is this loop
      over characters. */
  method EscapeLike(s: string) returns (result: string)
    ensures result == Escape(s)
  {
    result := [];
    for i := 0 to |s|
      invariant result == Escape(s[..i])
    {
      EscapeSnoc(s[..i], s[i]);
      assert s[..i] + [s[i]] == s[..i + 1];
      if s[i] == '%' || s[i] == '_' || s[i] == '\\' {
        result := result + ['\\'];
      }
      result := result + [s[i]];
    }
    assert s[..|s|] == s;
  }

  lemma {:induction false} PercentMatches(s: string, eq: CharEq)
    ensures Matches("%", s, eq)
    decreases |s|
  {
    if s == [] {
    } else {
      PercentMatches(s[1..], eq);
    }
  }

  /** The escaped prefix followed by "%" matches exactly the strings that begin with the prefix, up to
      the matcher's equality, whatever "%", "_" and backslashes the prefix contains. */
  lemma {:induction false} EscapedPrefixIff(prefix: string, s: string, eq: CharEq)
    ensures Matches(Escape(prefix) + "%", s, eq)
       <==> |prefix| <= |s| && forall i | 0 <= i < |prefix| :: eq(prefix[i], s[i])
    decreases |prefix|
  {
    var pattern := Escape(prefix) + "%";
    if prefix == [] {
      assert pattern == "%";
      PercentMatches(s, eq);
    } else if s != [] {
      EscapedPrefixIff(prefix[1..], s[1..], eq);
      var rest := Escape(prefix[1..]) + "%";
      var n := if IsSpecial(prefix[0]) then 2 else 1;
      assert pattern[n..] == rest;
      assert Matches(pattern, s, eq) <==> eq(prefix[0], s[0]) && Matches(rest, s[1..], eq);
      assert forall i | 0 <= i < |prefix[1..]| :: prefix[1..][i] == prefix[i + 1];
      assert |prefix| <= |s| ==> forall i | 0 <= i < |prefix[1..]| :: s[1..][i] == s[i + 1];
      if |prefix| <= |s| && eq(prefix[0], s[0]) && forall i | 0 <= i < |prefix[1..]| :: eq(prefix[1..][i], s[1..][i]) {
        forall i | 0 <= i < |prefix| ensures eq(prefix[i], s[i]) {
          if i > 0 { assert eq(prefix[1..][i - 1], s[1..][i - 1]); }
        }
      }
    }
  }

  /** The rows one prefix LIKE selects in SQLite. */
  predicate Selects(prefix: string, dir: string) {
    Matches(Escape(prefix) + "%", dir, FoldEq)
  }

  /** A prefix LIKE selects a directory exactly if it begins with the prefix, position by position equal or
      the two cases of one ASCII letter. */
  lemma SelectsIff(prefix: string, dir: string)
    ensures Selects(prefix, dir) <==> |prefix| <= |dir| && SameUpToCase(prefix, dir[..|prefix|])
    ensures Selects(prefix, dir) <==>
      |prefix| <= |dir| && forall i | 0 <= i < |prefix| ::
        var a, b := prefix[i], dir[i];
        a == b || ('A' <= a <= 'Z' && b as int == a as int + 32) || ('A' <= b <= 'Z' && a as int == b as int + 32)
    ensures prefix <= dir ==> Selects(prefix, dir)
  {
    EscapedPrefixIff(prefix, dir, FoldEq);
    forall i | 0 <= i < |prefix| <= |dir|
      ensures FoldEq(prefix[i], dir[i]) <==>
        var a, b := prefix[i], dir[i];
        a == b || ('A' <= a <= 'Z' && b as int == a as int + 32) || ('A' <= b <= 'Z' && a as int == b as int + 32)
    {
      FoldEqIff(prefix[i], dir[i]);
    }
  }
}
