/** Renaming a directory in the database: two UPDATE passes over `parent_dir`, against the
    one simultaneous substitution they stand for and against the move of the subtree on disk. */
module DirRename {
  import opened Strings
  import opened Paths
  import opened Like

  /** `dir` is `folder` or lies below it. */
  predicate Under(folder: string, dir: string) { dir == folder || folder + "/" <= dir }

  /** What renaming `old` to `new` should do to a stored directory. */
  function Subst(from: string, to: string, dir: string): string {
    if dir == from then to
    else if from + "/" <= dir then to + dir[|from|..]
    else dir
  }

  /** SQLite's `SUBSTR(s, k)`, which counts characters. */
  function Substr(s: string, k: nat): string
    requires k >= 1
  {
    if k - 1 <= |s| then s[k - 1..] else ""
  }

  /** `UPDATE ... SET parent_dir = new WHERE parent_dir = old`. */
  function ExactPass(from: string, to: string, dir: string): string {
    if dir == from then to else dir
  }

  /** `UPDATE ... SET parent_dir = new/ || SUBSTR(parent_dir, len(old/)+1) WHERE parent_dir LIKE old/%`;
      `len` counts bytes. */
  function PrefixPass(from: string, to: string, dir: string): string {
    if Selects(from + "/", dir) then to + "/" + Substr(dir, ByteLen(from + "/") + 1) else dir
  }

  /** `RenameParentDir` on one stored directory. */
  function TwoPass(from: string, to: string, dir: string): string {
    PrefixPass(from, to, ExactPass(from, to, dir))
  }

  /** The new relative path `UpdateFolder` computes: the last component replaced. */
  function Sibling(folder: string, newName: string): string {
    var cs := Split(folder);
    if |cs| == 1 then newName else Join(cs[..|cs| - 1]) + "/" + newName
  }

  /** A folder path `UpdateFolder` and `DeleteFolder` accept: clean, relative, not the root. */
  predicate FolderPath(p: string) { Accepted(p) && p != "" && p != "." }

  lemma SiblingComponents(folder: string, newName: string)
    requires FolderPath(folder) && GoodComponent(newName)
    ensures var cs := Components(folder);
      && FolderPath(Sibling(folder, newName))
      && Components(Sibling(folder, newName)) == cs[..|cs| - 1] + [newName]
  {
    var cs := Components(folder);
    AcceptedGood(folder);
    var ns := cs[..|cs| - 1] + [newName];
    if |cs| > 1 {
      JoinConcat(cs[..|cs| - 1], [newName]);
    } else {
      assert ns == [newName];
    }
    JoinGood(ns);
  }

  /** String prefixes at a slash are component prefixes. */
  lemma PrefixAtSlash(a: seq<string>, d: seq<string>)
    requires a != [] && d != [] && AllNoSlash(a) && AllNoSlash(d)
    ensures Join(a) + "/" <= Join(d) <==> a < d
    ensures Join(a) + "/" <= Join(d) ==> d == a + Split(Join(d)[|Join(a)| + 1..])
  {
    var p, q := Join(a), Join(d);
    SplitJoin(a);
    SplitJoin(d);
    if p + "/" <= q {
      assert q == p + "/" + q[|p| + 1..];
      SplitAtSlash(p, q[|p| + 1..]);
    }
    if a < d {
      assert d == a + d[|a|..];
      JoinConcat(a, d[|a|..]);
    }
  }

  lemma UnderIff(folder: string, dir: string)
    requires FolderPath(folder) && Accepted(dir)
    ensures Under(folder, dir) <==> Components(folder) <= Components(dir)
    ensures folder + "/" <= dir <==> Components(folder) < Components(dir)
    ensures dir == folder <==> Components(folder) == Components(dir)
    ensures folder + "/" <= dir ==> Components(dir) == Components(folder) + Split(dir[|folder| + 1..])
  {
    var a, d := Components(folder), Components(dir);
    ComponentsGood(folder);
    ComponentsGood(dir);
    UnderComponents(folder, a, dir, d);
  }

  /** `UnderIff` on the component lists of the two paths. */
  lemma UnderComponents(folder: string, a: seq<string>, dir: string, d: seq<string>)
    requires a != [] && GoodComponents(a) && GoodComponents(d) && folder == Join(a)
    requires if d == [] then dir == "" || dir == "." else dir == Join(d)
    ensures Under(folder, dir) <==> a <= d
    ensures folder + "/" <= dir <==> a < d
    ensures dir == folder <==> a == d
    ensures folder + "/" <= dir ==> d == a + Split(dir[|folder| + 1..])
  {
    GoodNoSlash(a);
    GoodNoSlash(d);
    JoinGood(a);
    if d != [] {
      PrefixAtSlash(a, d);
      JoinGood(d);
      assert |a| == |d| && a <= d ==> a == d;
    }
  }

  /** Moving the subtree `a` to `b` on disk. */
  function Moved(a: seq<string>, b: seq<string>, k: seq<string>): seq<string> {
    if a <= k then b + k[|a|..] else k
  }

  /** The substitution on stored directories is the subtree move on disk. */
  lemma SubstMoves(from: string, to: string, dir: string)
    requires FolderPath(from) && FolderPath(to) && Accepted(dir)
    ensures Accepted(Subst(from, to, dir))
    ensures Components(Subst(from, to, dir)) == Moved(Components(from), Components(to), Components(dir))
  {
    var a, b, d := Components(from), Components(to), Components(dir);
    UnderIff(from, dir);
    ComponentsGood(to);
    ComponentsGood(dir);
    if dir == from {
      assert b + d[|a|..] == b;
    } else if from + "/" <= dir {
      SubstBelow(from, a, to, b, dir, d);
    }
  }

  /** `SubstMoves` on the component lists, below the renamed directory. */
  lemma SubstBelow(from: string, a: seq<string>, to: string, b: seq<string>, dir: string, d: seq<string>)
    requires b != [] && to == Join(b) && GoodComponents(b) && GoodComponents(d)
    requires from + "/" <= dir && d == a + Split(dir[|from| + 1..])
    ensures Accepted(Subst(from, to, dir)) && Components(Subst(from, to, dir)) == Moved(a, b, d)
  {
    var rest := dir[|from| + 1..];
    var tail := Split(rest);
    SubstText(from, to, dir);
    assert d[|a|..] == tail;
    forall i | 0 <= i < |tail| ensures GoodComponent(tail[i]) { assert tail[i] == d[|a| + i]; }
    JoinTail(b, tail, rest);
  }

  lemma SubstText(from: string, to: string, dir: string)
    requires from + "/" <= dir
    ensures Subst(from, to, dir) == to + "/" + dir[|from| + 1..]
  {
    var rest := dir[|from| + 1..];
    assert dir == from + "/" + rest && dir[|from|..] == "/" + rest;
    ConcatAssoc(to, "/", rest);
  }

  lemma JoinTail(b: seq<string>, tail: seq<string>, rest: string)
    requires b != [] && GoodComponents(b) && GoodComponents(tail) && tail == Split(rest)
    ensures Accepted(Join(b) + "/" + rest) && Components(Join(b) + "/" + rest) == b + tail
  {
    JoinSplit(rest);
    JoinConcat(b, tail);
    JoinGood(b + tail);
  }

  // ---- Two passes against one substitution ----

  lemma {:induction false} SameCaseSameShape(a: string, b: string)
    requires SameUpToCase(a, b)
    ensures |Split(a)| == |Split(b)|
  {
    if a == [] {
    } else {
      assert FoldEq(a[0], b[0]);
      assert SameUpToCase(a[1..], b[1..]) by {
        forall i | 0 <= i < |a[1..]| ensures FoldEq(a[1..][i], b[1..][i]) { assert FoldEq(a[i + 1], b[i + 1]); }
      }
      SameCaseSameShape(a[1..], b[1..]);
    }
  }

  /** A string that begins, up to case, with `from` and a slash. */
  lemma SlashShape(from: string, dir: string)
    requires |from| < |dir| && SameUpToCase(from + "/", dir[..|from| + 1])
    ensures dir[|from|] == '/' && SameUpToCase(from, dir[..|from|])
    ensures dir == dir[..|from|] + "/" + dir[|from| + 1..]
  {
    var n := |from|;
    assert FoldEq((from + "/")[n], dir[..n + 1][n]);
    forall i | 0 <= i < n ensures FoldEq(from[i], dir[..n][i]) { assert FoldEq((from + "/")[i], dir[..n + 1][i]); }
  }

  /** A selected directory begins with the old path, up to case, and a slash; it has more components. */
  lemma SelectedShape(from: string, dir: string)
    requires Selects(from + "/", dir)
    ensures |from| < |dir| && dir[|from|] == '/'
    ensures |Split(dir)| > |Split(from)|
    ensures Split(dir) == Split(dir[..|from|]) + Split(dir[|from| + 1..]) && |Split(dir[..|from|])| == |Split(from)|
  {
    SelectsIff(from + "/", dir);
    SlashShape(from, dir);
    SplitAtSlash(dir[..|from|], dir[|from| + 1..]);
    SameCaseSameShape(from, dir[..|from|]);
  }

  /** The first pass never feeds the second: the new path has as many components as the old one. */
  lemma RenamedNotSelected(from: string, newName: string)
    requires FolderPath(from) && GoodComponent(newName)
    ensures !Selects(from + "/", Sibling(from, newName))
  {
    SiblingComponents(from, newName);
    if Selects(from + "/", Sibling(from, newName)) { SelectedShape(from, Sibling(from, newName)); }
  }

  /** What a caller can check before renaming: a directory that LIKE selects lies below the old path
      in the old path's own case, or already lies below the new one, and the old path is ASCII. */
  predicate Exact(from: string, to: string, dir: string) {
    Selects(from + "/", dir) ==> IsAscii(from) && (from + "/" <= dir || to + "/" <= dir)
  }

  lemma AsciiPrefix(from: string)
    ensures ByteLen(from + "/") == |from + "/"| <==> IsAscii(from)
  {
    ByteLenAscii(from + "/");
    if IsAscii(from) {
      forall i | 0 <= i < |from + "/"| ensures (from + "/")[i] as int < 0x80 {}
    }
    if IsAscii(from + "/") {
      forall i | 0 <= i < |from| ensures from[i] as int < 0x80 { assert from[i] == (from + "/")[i]; }
    }
  }

  /** SUBSTR from byte `cut` keeps the whole tail exactly when `cut` is the character position. */
  lemma CutTail(dir: string, n: nat, cut: nat)
    requires n < |dir| && cut >= n
    ensures Substr(dir, cut + 1) == dir[n..] <==> cut == n
  {
    assert |dir[n..]| == |dir| - n;
  }

  /** The two passes are the simultaneous substitution exactly on the directories `Exact` admits. */
  lemma TwoPassIff(from: string, newName: string, dir: string)
    requires FolderPath(from) && GoodComponent(newName) && Accepted(dir)
    ensures var to := Sibling(from, newName); TwoPass(from, to, dir) == Subst(from, to, dir) <==> Exact(from, to, dir)
  {
    var to := Sibling(from, newName);
    var prefix := from + "/";
    SelectsIff(prefix, dir);
    if dir == from {
      RenamedNotSelected(from, newName);
    } else if Selects(prefix, dir) {
      SelectedLonger(from, dir);
      if to + "/" <= dir { SameLength(from, newName, dir); }
      SelectedPass(from, to, dir);
    }
  }

  lemma SelectedPass(from: string, to: string, dir: string)
    requires dir != from && Selects(from + "/", dir) && |dir| > |from| + 1
    requires to + "/" <= dir ==> |to| == |from|
    ensures TwoPass(from, to, dir) == Subst(from, to, dir) <==> Exact(from, to, dir)
  {
    var cut := ByteLen(from + "/");
    var head, tail, rest := to + "/", Substr(dir, cut + 1), dir[|from| + 1..];
    AsciiPrefix(from);
    CutTail(dir, |from| + 1, cut);
    AppendCancels(head, tail, rest);
    assert TwoPass(from, to, dir) == head + tail;
    if from + "/" <= dir {
      SubstText(from, to, dir);
    } else if head <= dir {
      PrefixSplit(head, dir);
    } else {
      assert head <= head + tail;
    }
  }

  /** What `RenameParentDir` makes of any stored directory, however LIKE and SUBSTR go wrong: the renamed directory
      gets the new path; one that begins with the old path and a slash, equal or in the other case of an ASCII
      letter at each position, gets the new path, a slash, and what follows as many characters as the old path and
      its slash have bytes; any other stays. */
  lemma TwoPassExactly(from: string, newName: string, dir: string)
    requires FolderPath(from) && GoodComponent(newName)
    ensures var to, n := Sibling(from, newName), ByteLen(from) + 1;
      TwoPass(from, to, dir) ==
        if dir == from then to
        else if |dir| > |from| && dir[|from|] == '/' && forall i | 0 <= i < |from| ::
          var a, b := from[i], dir[i];
          a == b || ('A' <= a <= 'Z' && b as int == a as int + 32) || ('A' <= b <= 'Z' && a as int == b as int + 32)
        then to + "/" + if n <= |dir| then dir[n..] else ""
        else dir
  {
    RenamedNotSelected(from, newName);
    PassesExactly(from, Sibling(from, newName), dir);
    SelectsBelow(from, dir);
  }

  lemma PassesExactly(from: string, to: string, dir: string)
    requires !Selects(from + "/", to)
    ensures TwoPass(from, to, dir) ==
      if dir == from then to
      else if Selects(from + "/", dir)
        then to + "/" + if ByteLen(from) + 1 <= |dir| then dir[ByteLen(from) + 1..] else ""
      else dir
  {
    ByteLenConcat(from, "/");
  }

  /** LIKE selects what begins with the path, up to ASCII case, and a slash. */
  lemma SelectsBelow(from: string, dir: string)
    ensures Selects(from + "/", dir) <==>
      |dir| > |from| && dir[|from|] == '/' && forall i | 0 <= i < |from| ::
        var a, b := from[i], dir[i];
        a == b || ('A' <= a <= 'Z' && b as int == a as int + 32) || ('A' <= b <= 'Z' && a as int == b as int + 32)
  {
    var prefix := from + "/";
    SelectsIff(prefix, dir);
    assert prefix[|from|] == '/' && forall i | 0 <= i < |from| :: prefix[i] == from[i];
    if Selects(prefix, dir) {
      forall i | 0 <= i < |from|
        ensures var a, b := from[i], dir[i];
          a == b || ('A' <= a <= 'Z' && b as int == a as int + 32) || ('A' <= b <= 'Z' && a as int == b as int + 32)
      {
        assert prefix[i] == from[i];
      }
    }
  }

  lemma AppendCancels(head: string, a: string, b: string)
    ensures head + a == head + b <==> a == b
  {
    assert (head + a)[|head|..] == a && (head + b)[|head|..] == b;
  }

  lemma PrefixSplit(p: string, s: string)
    requires p <= s
    ensures s == p + s[|p|..]
  {}

  /** An accepted directory does not end with a slash. */
  lemma SelectedLonger(from: string, dir: string)
    requires Accepted(dir) && Selects(from + "/", dir)
    ensures |dir| > |from| + 1
  {
    SelectedShape(from, dir);
    ComponentsGood(dir);
    assert Components(dir) == Split(dir) by { if dir == "." { SplitSingle("."); } }
    LastNotEmpty(Split(dir), Split(dir[..|from|]), dir[|from| + 1..]);
  }

  lemma LastNotEmpty(cs: seq<string>, front: seq<string>, rest: string)
    requires GoodComponents(cs) && cs == front + Split(rest)
    ensures rest != ""
  {
    assert GoodComponent(cs[|cs| - 1]);
  }

  /** A directory selected by the old prefix that lies below the new path: then old and new have the same length. */
  lemma SameLength(from: string, newName: string, dir: string)
    requires FolderPath(from) && GoodComponent(newName) && Accepted(dir) && Selects(from + "/", dir)
    requires Sibling(from, newName) + "/" <= dir
    ensures |Sibling(from, newName)| == |from|
  {
    var to := Sibling(from, newName);
    SelectedShape(from, dir);
    SiblingComponents(from, newName);
    AcceptedGood(to);
    UnderIff(to, dir);
    var x, n := dir[..|from|], |Split(from)|;
    assert Split(dir)[..n] == Split(x) == Split(to);
    JoinSplit(x);
  }

  // ---- Where it is not exact ----

  /** A folder that differs from the renamed one only by case is dragged along. */
  lemma CaseVariantMoves()
    ensures TwoPass("Work", "Jobs", "work/x") == "Jobs/x"
    ensures Subst("Work", "Jobs", "work/x") == "work/x"
  {
    var prefix, dir := "Work/", "work/x";
    assert "Work" + "/" == prefix;
    assert SameUpToCase(prefix, dir[..5]);
    SelectsIff(prefix, dir);
    assert ByteLen(prefix) == 5 by { ByteLenAscii(prefix); }
    assert "Jobs" + "/" + "x" == "Jobs/x" && dir[5..] == "x";
  }

  /** With a two-byte character in the old path, SUBSTR cuts one character too many. */
  lemma MultiByteTruncates()
    ensures TwoPass("\U{00E9}", "e", "\U{00E9}/x") == "e/"
    ensures Subst("\U{00E9}", "e", "\U{00E9}/x") == "e/x"
  {
    var prefix, dir := "\U{00E9}/", "\U{00E9}/x";
    assert "\U{00E9}" + "/" == prefix && dir[..2] == prefix;
    SelectsIff(prefix, dir);
    assert prefix[1..] == "/" && prefix[1..][1..] == "" && ByteLen("/") == 1;
    assert ByteLen(prefix) == 3;
    assert dir[3..] == "" && "e" + "/" + "" == "e/" && "e" + dir[1..] == "e/x";
  }

  // ---- Renaming back ----

  /** Below the new path, renaming back puts the old path in front again. */
  lemma SubstBackText(from: string, to: string, rest: string)
    ensures Subst(to, from, to + "/" + rest) == from + "/" + rest
  {
    assert (to + "/" + rest)[|to| + 1..] == rest;
    SubstText(to, from, to + "/" + rest);
  }

  /** Substituting back restores every directory, unless it already lay at or below the new path. */
  lemma RenameBack(from: string, to: string, dir: string)
    ensures Subst(to, from, Subst(from, to, dir)) == dir <==> Under(from, dir) || !Under(to, dir)
  {
    if dir != from && from + "/" <= dir {
      var rest := dir[|from| + 1..];
      assert dir == from + "/" + rest;
      SubstText(from, to, dir);
      SubstBackText(from, to, rest);
    } else if dir != from && dir != to && to + "/" <= dir {
      var rest := dir[|to| + 1..];
      assert dir == to + "/" + rest;
      SubstBackText(from, to, rest);
      assert (from + "/" + rest)[..|from| + 1] == from + "/";
    }
  }

  /** What can be checked before renaming there and back: the directory is the renamed one, or lies below
      it in that very spelling while both paths are ASCII, or LIKE selects it neither way. */
  predicate Restored(from: string, to: string, dir: string) {
    if dir == from then true
    else if Selects(from + "/", dir) then from + "/" <= dir && IsAscii(from) && IsAscii(to)
    else dir != to && !Selects(to + "/", dir)
  }

  /** SUBSTR after a prefix whose bytes are counted loses characters unless the prefix is ASCII. */
  lemma SubstrAfter(prefix: string, tail: string)
    ensures |Substr(prefix + "/" + tail, ByteLen(prefix + "/") + 1)| <= |tail|
    ensures Substr(prefix + "/" + tail, ByteLen(prefix + "/") + 1) == tail <==> IsAscii(prefix) || tail == ""
  {
    var p, s, cut := prefix + "/", prefix + "/" + tail, ByteLen(prefix + "/");
    AsciiPrefix(prefix);
    if cut == |p| { assert s[cut..] == tail; }
  }

  /** A selected directory comes back exactly if it is spelled like the old path and nothing was cut. */
  lemma SelectedBack(from: string, to: string, dir: string)
    requires dir != from && Selects(from + "/", dir) && |dir| > |from| + 1
    ensures TwoPass(to, from, TwoPass(from, to, dir)) == dir <==> from + "/" <= dir && IsAscii(from) && IsAscii(to)
  {
    var x := Substr(dir, ByteLen(from + "/") + 1);
    var mid := to + "/" + x;
    var y := Substr(mid, ByteLen(to + "/") + 1);
    assert TwoPass(from, to, dir) == mid;
    SelectsIff(to + "/", mid);
    assert mid != to && to + "/" <= mid;
    assert TwoPass(to, from, mid) == from + "/" + y;
    SubstrAfter(to, x);
    if from + "/" <= dir {
      var rest := dir[|from| + 1..];
      PrefixSplit(from + "/", dir);
      SubstrAfter(from, rest);
      AppendCancels(from + "/", y, rest);
    } else {
      assert from + "/" <= from + "/" + y;
    }
  }

  /** The two passes there and the two passes back restore a directory exactly if `Restored` says so. */
  lemma TwoPassBackIff(from: string, newName: string, dir: string)
    requires FolderPath(from) && GoodComponent(newName) && Accepted(dir)
    ensures var to := Sibling(from, newName);
      TwoPass(to, from, TwoPass(from, to, dir)) == dir <==> Restored(from, to, dir)
  {
    var to := Sibling(from, newName);
    LastGood(from);
    var name := Components(from)[|Components(from)| - 1];
    SiblingBack(from, newName, name);
    SiblingNames(from, newName);
    RenamedNotSelected(from, newName);
    RenamedNotSelected(to, name);
    if dir != from && Selects(from + "/", dir) {
      SelectedLonger(from, dir);
      SelectedBack(from, to, dir);
    } else if dir != from {
      UnselectedBack(from, to, dir);
    }
  }

  lemma UnselectedBack(from: string, to: string, dir: string)
    requires dir != from && !Selects(from + "/", dir) && !Selects(to + "/", from)
    ensures TwoPass(to, from, TwoPass(from, to, dir)) == dir <==> dir != to && !Selects(to + "/", dir)
  {
    SelectsIff(from + "/", dir);
    if dir != to && Selects(to + "/", dir) {
      var y := Substr(dir, ByteLen(to + "/") + 1);
      assert from + "/" <= from + "/" + y;
    }
  }

  lemma LastGood(p: string)
    requires FolderPath(p)
    ensures Components(p) != [] && GoodComponent(Components(p)[|Components(p)| - 1])
  {
    ComponentsGood(p);
  }

  lemma SameFolder(p: string, q: string)
    requires p !in {"", "."} && q !in {"", "."}
    ensures Components(p) == Components(q) <==> p == q
  {
    JoinSplit(p);
    JoinSplit(q);
  }

  lemma LastReplaced(a: seq<string>, name: string)
    requires a != []
    ensures var b := a[..|a| - 1] + [name]; b[..|b| - 1] + [a[|a| - 1]] == a
  {
    var b := a[..|a| - 1] + [name];
    assert b[..|b| - 1] == a[..|a| - 1];
  }

  lemma SiblingNames(folder: string, newName: string)
    requires FolderPath(folder) && GoodComponent(newName)
    ensures FolderPath(Sibling(folder, newName)) && Sibling(folder, newName) !in {"", "."}
    ensures Components(folder) != []
    ensures Components(Sibling(folder, newName)) == Components(folder)[..|Components(folder)| - 1] + [newName]
  {
    SiblingComponents(folder, newName);
    LastGood(folder);
  }

  /** Renaming a sibling back to the old last component is renaming back. */
  lemma SiblingBack(from: string, newName: string, name: string)
    requires FolderPath(from) && GoodComponent(newName) && Components(from) != []
    requires name == Components(from)[|Components(from)| - 1]
    ensures GoodComponent(name) && Sibling(Sibling(from, newName), name) == from
  {
    LastGood(from);
    SiblingNames(from, newName);
    SiblingNames(Sibling(from, newName), name);
    LastReplaced(Components(from), newName);
    SameFolder(Sibling(Sibling(from, newName), name), from);
  }
}
