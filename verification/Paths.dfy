/** Path validation: `filepath.Clean`, `Join` and `Rel` over component lists, the
    checks of `common/pathutil.go`, and where an accepted path can lead. */
module Paths {
  import opened Strings

  // ---- filepath.Clean ----

  /** The component stack of `Clean`: drops "" and ".", lets ".." cancel the component before it,
      and keeps a leading ".." only in a relative path. */
  function CleanStack(cs: seq<string>, rooted: bool, stack: seq<string>): (r: seq<string>) {
    if cs == [] then stack
    else if cs[0] == "" || cs[0] == "." then CleanStack(cs[1..], rooted, stack)
    else if cs[0] == ".." then
      if stack != [] && stack[|stack| - 1] != ".." then CleanStack(cs[1..], rooted, stack[..|stack| - 1])
      else if rooted then CleanStack(cs[1..], rooted, stack)
      else CleanStack(cs[1..], rooted, stack + [".."])
    else CleanStack(cs[1..], rooted, stack + [cs[0]])
  }

  function Clean(p: string): (r: string) {
    if p == "" then "."
    else if p[0] == '/' then "/" + Join(CleanStack(Split(p), true, []))
    else
      var stack := CleanStack(Split(p), false, []);
      if stack == [] then "." else Join(stack)
  }

  // ---- rejectBadRelativePath ----

  datatype PathError = LeadingSlash | Backslash | NullByte | NotClean(use: string) | ParentSegment

  /** `rejectBadRelativePath`; `None` accepts. */
  function RejectBadRelativePath(p: string): (r: Option<PathError>) {
    if p == "" then None
    else if p[0] == '/' then Some(LeadingSlash)
    else if '\\' in p then Some(Backslash)
    else if '\0' in p then Some(NullByte)
    else if Clean(p) != p then Some(NotClean(Clean(p)))
    else if ".." in Split(p) then Some(ParentSegment)
    else None
  }

  predicate Accepted(p: string) { RejectBadRelativePath(p) == None }

  /** A name that can stand for one directory entry below its parent. */
  predicate GoodComponent(c: string) {
    c != "" && c != "." && c != ".." && NoSlash(c) && '\\' !in c && '\0' !in c
  }

  ghost predicate GoodComponents(cs: seq<string>) {
    forall i :: 0 <= i < |cs| ==> GoodComponent(cs[i])
  }

  /** The directory below the data directory that an accepted path names. Both "" and "." name the root. */
  function Components(p: string): (r: seq<string>) {
    if p == "" || p == "." then [] else Split(p)
  }

  // ---- ValidateName ----

  const MAX_NAME_LEN := 255

  /** `ValidateName`. */
  predicate ValidName(name: string) {
    && name != "" && ByteLen(name) <= MAX_NAME_LEN
    && '/' !in name && '\\' !in name && name != "." && name != ".." && '\0' !in name
  }

  // ---- Lemmas about Clean ----

  lemma {:induction false} CleanStackGood(cs: seq<string>, rooted: bool, stack: seq<string>)
    requires GoodComponents(cs)
    ensures CleanStack(cs, rooted, stack) == stack + cs
  {
    if cs != [] {
      assert GoodComponent(cs[0]);
      CleanStackGood(cs[1..], rooted, stack + [cs[0]]);
      assert stack + [cs[0]] + cs[1..] == stack + cs;
    } else {
      assert stack + cs == stack;
    }
  }

  // The rules by which `Clean` rewrites a path, component by component.

  /** Empty components and "." go; a component and the ".." after it cancel; at a root ".." goes. */
  lemma CleanRules(a: seq<string>, c: string, b: seq<string>, rooted: bool)
    ensures CleanStack(a + [""] + b, rooted, []) == CleanStack(a + b, rooted, [])
    ensures CleanStack(a + ["."] + b, rooted, []) == CleanStack(a + b, rooted, [])
    ensures c !in {"", ".", ".."} ==> CleanStack(a + [c, ".."] + b, rooted, []) == CleanStack(a + b, rooted, [])
    ensures CleanStack([".."] + b, true, []) == CleanStack(b, true, [])
  {
    var s := CleanStack(a, rooted, []);
    assert a + [""] + b == a + ([""] + b) && a + ["."] + b == a + (["."] + b);
    assert a + [c, ".."] + b == a + ([c, ".."] + b);
    CleanStackAppend(a, b, rooted, []);
    CleanStackAppend(a, [""] + b, rooted, []);
    CleanStackAppend(a, ["."] + b, rooted, []);
    CleanStackAppend(a, [c, ".."] + b, rooted, []);
    assert ([""] + b)[1..] == b && (["."] + b)[1..] == b && ([".."] + b)[1..] == b;
    assert ([c, ".."] + b)[1..] == [".."] + b;
    assert (s + [c])[..|s|] == s;
  }

  /** Where no rule applies, nothing changes: good components, after any number of ".." in a relative path. */
  lemma {:induction false} CleanNormal(n: nat, cs: seq<string>)
    requires GoodComponents(cs)
    ensures CleanStack(Ups(n) + cs, false, []) == Ups(n) + cs
  {
    UpsStay(n, 0);
    CleanStackAppend(Ups(n), cs, false, []);
    assert Ups(0) + Ups(n) == Ups(n) && Ups(0) == [];
    CleanStackGood(cs, false, Ups(n));
  }

  lemma {:induction false} UpsStay(n: nat, k: nat)
    ensures CleanStack(Ups(n), false, Ups(k)) == Ups(k) + Ups(n)
  {
    if n == 0 {
      assert Ups(k) + Ups(0) == Ups(k);
    } else {
      assert Ups(n)[1..] == Ups(n - 1) && Ups(k) + [".."] == Ups(k + 1);
      UpsStay(n - 1, k + 1);
      assert Ups(k + 1) + Ups(n - 1) == Ups(k) + Ups(n);
    }
  }

  ghost predicate Segments(cs: seq<string>) {
    forall i :: 0 <= i < |cs| ==> cs[i] != "" && cs[i] != "." && NoSlash(cs[i])
  }

  /** What is left on the stack is never "", never "." and never has a slash; without ".." in the
      input there is none in the output. */
  lemma {:induction false} CleanStackComponents(cs: seq<string>, rooted: bool, stack: seq<string>)
    requires AllNoSlash(cs)
    requires Segments(stack)
    ensures Segments(CleanStack(cs, rooted, stack))
    ensures ".." !in cs && ".." !in stack ==> ".." !in CleanStack(cs, rooted, stack)
  {
    if cs == [] {
    } else {
      assert NoSlash(cs[0]);
      if cs[0] == "" || cs[0] == "." {
        CleanStackComponents(cs[1..], rooted, stack);
      } else if cs[0] == ".." {
        if stack != [] && stack[|stack| - 1] != ".." { CleanStackComponents(cs[1..], rooted, stack[..|stack| - 1]); }
        else if rooted { CleanStackComponents(cs[1..], rooted, stack); }
        else { CleanStackComponents(cs[1..], rooted, stack + [".."]); }
      } else {
        CleanStackComponents(cs[1..], rooted, stack + [cs[0]]);
      }
    }
  }

  lemma {:induction false} NotInJoin(cs: seq<string>, c: char)
    requires c != '/' && forall i | 0 <= i < |cs| :: c !in cs[i]
    ensures c !in Join(cs)
  {
    if |cs| <= 1 {
    } else {
      NotInJoin(cs[1..], c);
    }
  }

  lemma {:induction false} JoinIn(cs: seq<string>, i: nat, c: char)
    requires i < |cs| && c in cs[i]
    ensures c in Join(cs)
  {
    if |cs| > 1 && i > 0 {
      JoinIn(cs[1..], i - 1, c);
    }
  }

  lemma GoodNoSlash(cs: seq<string>)
    requires GoodComponents(cs)
    ensures AllNoSlash(cs)
  {
    forall i | 0 <= i < |cs| ensures NoSlash(cs[i]) { assert GoodComponent(cs[i]); }
  }

  lemma JoinGood(cs: seq<string>)
    requires cs != [] && GoodComponents(cs)
    ensures Split(Join(cs)) == cs
    ensures Clean(Join(cs)) == Join(cs)
    ensures Join(cs) != "" && Join(cs) != "." && Join(cs)[0] != '/'
    ensures Accepted(Join(cs)) && Components(Join(cs)) == cs
  {
    var p := Join(cs);
    GoodNoSlash(cs);
    SplitJoin(cs);
    assert GoodComponent(cs[0]);
    if |cs| > 1 { assert p[0] == cs[0][0]; }
    if p == "." { SplitSingle("."); }
    CleanStackGood(cs, false, []);
    assert [] + cs == cs;
    forall i | 0 <= i < |cs| ensures cs[i] != ".." && '\\' !in cs[i] && '\0' !in cs[i] { assert GoodComponent(cs[i]); }
    NotInJoin(cs, '\\');
    NotInJoin(cs, '\0');
  }

  lemma AcceptedGood(p: string)
    requires Accepted(p) && p != "" && p != "."
    ensures GoodComponents(Split(p)) && Join(Split(p)) == p
  {
    var cs := Split(p);
    JoinSplit(p);
    SplitNoSlash(p);
    var stack := CleanStack(cs, false, []);
    CleanStackComponents(cs, false, []);
    assert stack != [] && p == Join(stack);
    assert AllNoSlash(stack);
    SplitJoin(stack);
    assert cs == stack;
    forall i | 0 <= i < |cs| ensures GoodComponent(cs[i]) {
      if '\\' in cs[i] { JoinIn(cs, i, '\\'); }
      if '\0' in cs[i] { JoinIn(cs, i, '\0'); }
      assert cs[i] in cs;
    }
  }

  /** Exactly the root in its two spellings, and the "/"-joins of good components, are accepted. */
  lemma AcceptedIff(p: string)
    ensures Accepted(p) <==> p == "" || p == "." || exists cs :: cs != [] && GoodComponents(cs) && p == Join(cs)
  {
    if p == "." {
      SplitSingle(".");
      assert CleanStack([], false, []) == [] && [""][1..] == [];
      assert CleanStack(Split("."), false, []) == [];
    } else if p != "" {
      if Accepted(p) { AcceptedGood(p); }
      if cs :| cs != [] && GoodComponents(cs) && p == Join(cs) { JoinGood(cs); }
    }
  }

  /** A path is accepted if it names the root, or if none of its components is empty, "." or "..", and none
      has a backslash or a null character. */
  lemma AcceptedComponents(p: string)
    ensures Accepted(p) <==> p == "" || p == "." || forall c | c in Split(p) ::
      c != "" && c != "." && c != ".." && '\\' !in c && '\0' !in c
  {
    AcceptedIff(p);
    if p != "" && p != "." {
      SplitNoSlash(p);
      JoinSplit(p);
      if Accepted(p) {
        AcceptedGood(p);
        forall c | c in Split(p) ensures GoodComponent(c) {
          var i :| 0 <= i < |Split(p)| && Split(p)[i] == c;
        }
      } else if forall c | c in Split(p) :: c != "" && c != "." && c != ".." && '\\' !in c && '\0' !in c {
        forall i | 0 <= i < |Split(p)| ensures GoodComponent(Split(p)[i]) { assert Split(p)[i] in Split(p); }
      }
    }
  }

  /** A name is valid exactly if it is an accepted path of one component, of at most 255 bytes. */
  lemma ValidNameIff(name: string)
    ensures ValidName(name) <==>
      Accepted(name) && name != "" && name != "." && '/' !in name && ByteLen(name) <= 255
  {
    if '/' !in name {
      SplitSingle(name);
      AcceptedComponents(name);
    }
  }

  lemma ComponentsGood(p: string)
    requires Accepted(p)
    ensures GoodComponents(Components(p))
    ensures Components(p) != [] ==> Join(Components(p)) == p
  {
    if p != "" && p != "." { AcceptedGood(p); }
  }

  /** A directory has one accepted name, except the root, which has two. */
  lemma ComponentsInjective(p: string, q: string)
    requires Accepted(p) && Accepted(q)
    ensures Components(p) == Components(q) <==> p == q || (p in {"", "."} && q in {"", "."})
  {
    ComponentsGood(p);
    ComponentsGood(q);
  }

  // ---- Joining ----

  /** A clean path, absolute or relative to the working directory. */
  datatype Location = Location(rooted: bool, names: seq<string>)

  function PathText(l: Location): string {
    if l.rooted then "/" + Join(l.names) else if l.names == [] then "." else Join(l.names)
  }

  /** Cleaning changes nothing: no empty names, no ".", and ".." only where a relative path begins. */
  ghost predicate IsClean(l: Location) { Segments(l.names) && CleanStack(l.names, l.rooted, []) == l.names }

  /** `filepath.Join(a, b)` for non-empty `a`. */
  function JoinPath(a: string, b: string): string {
    if b == "" then Clean(a) else Clean(a + "/" + b)
  }

  /** Where joining these components one after the other leads. */
  function Append(l: Location, cs: seq<string>): Location { l.(names := CleanStack(cs, l.rooted, l.names)) }

  lemma {:induction false} CleanStackAppend(a: seq<string>, b: seq<string>, rooted: bool, stack: seq<string>)
    ensures CleanStack(a + b, rooted, stack) == CleanStack(b, rooted, CleanStack(a, rooted, stack))
  {
    if a == [] {
      assert a + b == b;
    } else {
      assert (a + b)[1..] == a[1..] + b && (a + b)[0] == a[0];
      if a[0] == "" || a[0] == "." { CleanStackAppend(a[1..], b, rooted, stack); }
      else if a[0] == ".." {
        if stack != [] && stack[|stack| - 1] != ".." { CleanStackAppend(a[1..], b, rooted, stack[..|stack| - 1]); }
        else if rooted { CleanStackAppend(a[1..], b, rooted, stack); }
        else { CleanStackAppend(a[1..], b, rooted, stack + [".."]); }
      } else { CleanStackAppend(a[1..], b, rooted, stack + [a[0]]); }
    }
  }

  lemma AppendGood(l: Location, cs: seq<string>)
    requires GoodComponents(cs)
    ensures Append(l, cs) == l.(names := l.names + cs)
    ensures IsClean(l) ==> IsClean(Append(l, cs))
  {
    CleanStackGood(cs, l.rooted, l.names);
    CleanStackAppend(l.names, cs, l.rooted, []);
    forall i | |l.names| <= i < |l.names + cs| ensures GoodComponent((l.names + cs)[i]) {
      assert (l.names + cs)[i] == cs[i - |l.names|];
    }
  }

  lemma CleanText(l: Location)
    requires IsClean(l)
    ensures PathText(l) != "" && (PathText(l)[0] == '/' <==> l.rooted)
    ensures CleanStack(Split(PathText(l)), l.rooted, []) == l.names
  {
    if l.names != [] {
      SplitJoin(l.names);
      assert NoSlash(l.names[0]);
      assert Join(l.names)[0] == l.names[0][0];
    }
    if l.rooted {
      SplitAtSlash("", Join(l.names));
      assert "" + "/" + Join(l.names) == PathText(l);
      assert ([""] + Split(Join(l.names)))[1..] == Split(Join(l.names));
      if l.names == [] { assert CleanStack([""], true, []) == CleanStack([], true, []); }
    } else if l.names == [] {
      SplitSingle(".");
      assert CleanStack(["."], false, []) == CleanStack([], false, []);
    }
  }

  /** What `Clean` makes of a clean path, a slash, and more. */
  lemma CleanBelow(l: Location, b: string)
    requires IsClean(l)
    ensures Clean(PathText(l) + "/" + b) == PathText(Append(l, Split(b)))
  {
    CleanText(l);
    SplitAtSlash(PathText(l), b);
    CleanStackAppend(Split(PathText(l)), Split(b), l.rooted, []);
  }

  /** Joining a good relative path to a clean one appends its components. */
  lemma JoinPathGood(l: Location, cs: seq<string>)
    requires IsClean(l) && GoodComponents(cs) && cs != []
    ensures JoinPath(PathText(l), Join(cs)) == PathText(l.(names := l.names + cs))
  {
    JoinGood(cs);
    CleanBelow(l, Join(cs));
    AppendGood(l, cs);
  }

  /** `filepath.Join(dataDir, filepath.Clean(p))` for an accepted `p`. */
  lemma JoinDataDir(dataDir: Location, p: string)
    requires IsClean(dataDir) && Accepted(p)
    ensures JoinPath(PathText(dataDir), Clean(p)) == PathText(dataDir.(names := dataDir.names + Components(p)))
  {
    if p == "" || p == "." {
      AcceptedIff(p);
      SplitSingle(".");
      assert Clean(p) == ".";
      CleanBelow(dataDir, ".");
      assert CleanStack(["."], dataDir.rooted, dataDir.names) == CleanStack([], dataDir.rooted, dataDir.names);
      assert dataDir.names + [] == dataDir.names;
    } else {
      AcceptedGood(p);
      JoinPathGood(dataDir, Split(p));
    }
  }

  // ---- What Clean leaves ----

  /** In a cleaned path ".." stands only where a relative path begins. */
  ghost predicate Normal(names: seq<string>, rooted: bool) {
    && Segments(names)
    && forall i | 0 <= i < |names| && names[i] == ".." :: !rooted && (i == 0 || names[i - 1] == "..")
  }

  lemma {:induction false} StackNormal(cs: seq<string>, rooted: bool, stack: seq<string>)
    requires AllNoSlash(cs) && Normal(stack, rooted)
    ensures Normal(CleanStack(cs, rooted, stack), rooted)
  {
    if cs == [] {
    } else {
      assert NoSlash(cs[0]);
      if cs[0] == "" || cs[0] == "." {
        StackNormal(cs[1..], rooted, stack);
      } else if cs[0] == ".." {
        if stack != [] && stack[|stack| - 1] != ".." { StackNormal(cs[1..], rooted, stack[..|stack| - 1]); }
        else if rooted { StackNormal(cs[1..], rooted, stack); }
        else { StackNormal(cs[1..], rooted, stack + [".."]); }
      } else {
        StackNormal(cs[1..], rooted, stack + [cs[0]]);
      }
    }
  }

  lemma {:induction false} NormalStays(names: seq<string>, rooted: bool)
    requires Normal(names, rooted)
    ensures CleanStack(names, rooted, []) == names
    decreases |names|
  {
    if names == [] {
    } else {
      var n := |names| - 1;
      var front, last := names[..n], names[n];
      assert names == front + [last];
      NormalStays(front, rooted);
      CleanStackAppend(front, [last], rooted, []);
      assert [last][1..] == [];
    }
  }

  lemma {:induction false} NormalBegins(names: seq<string>, rooted: bool, i: nat)
    requires Normal(names, rooted) && i < |names| && names[i] == ".."
    ensures names[0] == ".."
  {
    if i > 0 { NormalBegins(names, rooted, i - 1); }
  }

  /** `Clean` makes a clean path of any path, absolute if that was, and changes no clean path. */
  lemma CleanIsClean(p: string)
    requires p != ""
    ensures var rooted := p[0] == '/';
      var l := Location(rooted, CleanStack(Split(p), rooted, []));
      IsClean(l) && Normal(l.names, rooted) && Clean(p) == PathText(l) && Clean(Clean(p)) == Clean(p)
  {
    var rooted := p[0] == '/';
    var l := Location(rooted, CleanStack(Split(p), rooted, []));
    SplitNoSlash(p);
    StackNormal(Split(p), rooted, []);
    NormalStays(l.names, rooted);
    CleanText(l);
  }

  /** Why a path is rejected: the first of these that applies. A clean relative path has the component ".." only
      if it begins with it. */
  lemma RejectedBecause(p: string)
    ensures var r := RejectBadRelativePath(p);
      var plain := p != "" && p[0] != '/' && '\\' !in p && '\0' !in p;
      && (r == Some(LeadingSlash) <==> p != "" && p[0] == '/')
      && (r == Some(Backslash) <==> p != "" && p[0] != '/' && '\\' in p)
      && (r == Some(NullByte) <==> p != "" && p[0] != '/' && '\\' !in p && '\0' in p)
      && (r == Some(NotClean(Clean(p))) <==> plain && Clean(p) != p)
      && (r == Some(ParentSegment) <==> plain && Clean(p) == p && Split(p)[0] == "..")
  {
    if p != "" && p[0] != '/' && Clean(p) == p {
      CleanIsClean(p);
      var names := CleanStack(Split(p), false, []);
      if names == [] {
        SplitSingle(".");
      } else {
        SplitJoin(names);
        if ".." in names {
          var i :| 0 <= i < |names| && names[i] == "..";
          NormalBegins(names, false, i);
        }
      }
    }
  }

  // ---- filepath.Rel and IsSubPath ----

  function CommonPrefix(a: seq<string>, b: seq<string>): (n: nat)
    ensures n <= |a| && n <= |b| && a[..n] == b[..n]
    ensures n < |a| && n < |b| ==> a[n] != b[n]
  {
    if a != [] && b != [] && a[0] == b[0] then
      var n := CommonPrefix(a[1..], b[1..]);
      assert a[..n + 1] == [a[0]] + a[1..][..n] && b[..n + 1] == [b[0]] + b[1..][..n];
      n + 1
    else 0
  }

  function Ups(n: nat): seq<string> { seq(n, i => "..") }

  lemma UpsFirst(n: nat, rest: seq<string>)
    ensures n > 0 ==> ".." in Ups(n) + rest
    ensures n == 0 ==> Ups(n) + rest == rest
  {
    assert n > 0 ==> (Ups(n) + rest)[0] == "..";
  }

  /** `filepath.Rel` on two clean paths: up from the base, then down to the target. An error between an
      absolute and a relative path, and where it would have to go up from "..". */
  function Rel(base: Location, target: Location): (r: Option<seq<string>>) {
    var n := CommonPrefix(base.names, target.names);
    if base.rooted != target.rooted then None
    else if n == |base.names| && n == |target.names| then Some(["."])
    else if n < |base.names| && base.names[n] == ".." && (n < |target.names| || n == 0) then None
    else Some(Ups(|base.names| - n) + target.names[n..])
  }

  /** `IsSubPath`. */
  predicate IsSubPath(base: Location, candidate: Location) {
    match Rel(base, candidate)
    case None => false
    case Some(rel) => rel != ["."] && ".." !in rel
  }

  /** Strictly below: the base's names, then at least one more, and no way back up. */
  predicate StrictlyBelow(base: Location, l: Location) {
    base.rooted == l.rooted && base.names < l.names && ".." !in l.names[|base.names|..]
  }

  lemma SubPathIsBelow(base: Location, candidate: Location)
    requires IsSubPath(base, candidate)
    ensures StrictlyBelow(base, candidate)
  {
    var n := CommonPrefix(base.names, candidate.names);
    assert Rel(base, candidate) == Some(Ups(|base.names| - n) + candidate.names[n..]);
    UpsFirst(|base.names| - n, candidate.names[n..]);
    assert n == |base.names| < |candidate.names|;
    assert base.names == candidate.names[..n];
  }

  /** `IsSubPath` means strictly below; a clean path has no component ".". */
  lemma IsSubPathIff(base: Location, candidate: Location)
    requires "." !in candidate.names
    ensures IsSubPath(base, candidate) <==> StrictlyBelow(base, candidate)
  {
    if IsSubPath(base, candidate) {
      SubPathIsBelow(base, candidate);
    }
    if StrictlyBelow(base, candidate) {
      assert forall i | 0 <= i < |base.names| :: base.names[i] == candidate.names[i];
      var n := |base.names|;
      assert CommonPrefix(base.names, candidate.names) == n;
      UpsFirst(0, candidate.names[n..]);
      assert candidate.names[n..][0] == candidate.names[n];
    }
  }

  // ---- resolveSymlinks and validatePath ----

  /** What `filepath.EvalSymlinks` says of a path: where it really is, that it does not exist, or another error. */
  datatype Eval = Real(at: Location) | NotExist | Failed

  type EvalSymlinks = Location -> Eval

  /** The first `n` names of a path. */
  function Front(path: Location, n: nat): Location
    requires n <= |path.names|
  {
    path.(names := path.names[..n])
  }

  /** `resolveSymlinks`: the longest existing ancestor, resolved, with the missing tail put back.
      `filepath.Dir` drops the last component and `filepath.Base` is that component. */
  method ResolveSymlinks(path: Location, eval: EvalSymlinks) returns (r: Option<Location>)
    ensures r == Resolved(path, eval)
  {
    var first := eval(path);
    if first.Real? { return Some(first.at); }
    if first.Failed? { return None; }
    var tail, cur := [], path;
    assert path.names[|path.names|..] == [];
    ExtendNothing(Resolved(path, eval));
    var resolved: Location;
    while true
      invariant |cur.names| <= |path.names| && cur == Front(path, |cur.names|)
      invariant TailOf(tail, path.names, |cur.names|)
      invariant eval(cur).NotExist?
      invariant Resolved(path, eval) == Extend(Resolved(cur, eval), path.names[|cur.names|..])
      decreases |cur.names|
    {
      UpOne(path, |cur.names|, eval);
      if cur.names == [] { return None; }
      TailSnoc(tail, path.names, |cur.names|);
      var parent, base := Front(cur, |cur.names| - 1), cur.names[|cur.names| - 1];
      tail := tail + [base];
      var next := eval(parent);
      cur := parent;
      if next.Real? { resolved := next.at; break; }
      if next.Failed? { return None; }
    }
    resolved := AppendTail(path.names, |cur.names|, resolved, tail);
    r := Some(resolved);
  }

  /** The names from `n` on, collected from the right. */
  ghost predicate TailOf(tail: seq<string>, names: seq<string>, n: nat) {
    |tail| + n == |names| && forall i | 0 <= i < |tail| :: tail[i] == names[|names| - 1 - i]
  }

  lemma TailSnoc(tail: seq<string>, names: seq<string>, n: nat)
    requires TailOf(tail, names, n) && n > 0
    ensures TailOf(tail + [names[n - 1]], names, n - 1)
  {}

  lemma TailFrom(names: seq<string>, n: nat)
    requires n < |names|
    ensures names[n..] == [names[n]] + names[n + 1..]
    ensures names[..n + 1][n] == names[n] && names[..n + 1][..n] == names[..n]
  {}

  /** A missing path is its parent, wherever that is, with the last name put back. */
  lemma UpOne(path: Location, k: nat, eval: EvalSymlinks)
    requires k <= |path.names| && eval(Front(path, k)).NotExist?
    ensures k == 0 ==> Extend(Resolved(Front(path, k), eval), path.names[k..]) == None
    ensures k > 0 ==>
      Front(Front(path, k), k - 1) == Front(path, k - 1) && Front(path, k).names[k - 1] == path.names[k - 1]
    ensures k > 0 ==> var e := eval(Front(path, k - 1));
      Extend(Resolved(Front(path, k), eval), path.names[k..]) ==
        if e.NotExist? then Extend(Resolved(Front(path, k - 1), eval), path.names[k - 1..])
        else if e.Real? then Some(Append(e.at, path.names[k - 1..])) else None
  {
    if k > 0 {
      TailFrom(path.names, k - 1);
      ExtendTwice(Resolved(Front(path, k - 1), eval), [path.names[k - 1]], path.names[k..]);
    }
  }

  /** The last loop of `resolveSymlinks`: the missing components, collected from the right, put back in order. */
  method AppendTail(ghost names: seq<string>, ghost n: nat, base: Location, tail: seq<string>)
    returns (resolved: Location)
    requires TailOf(tail, names, n)
    ensures resolved == Append(base, names[n..])
  {
    resolved := base;
    var i := |tail|;
    assert names[n..|names| - i] == [];
    while i > 0
      invariant 0 <= i <= |tail|
      invariant resolved == Append(base, names[n..|names| - i])
    {
      i := i - 1;
      assert names[n..|names| - i] == names[n..|names| - i - 1] + [tail[i]];
      CleanStackAppend(names[n..|names| - i - 1], [tail[i]], base.rooted, base.names);
      resolved := Append(resolved, [tail[i]]);
    }
    assert names[n..|names|] == names[n..];
  }

  function Extend(base: Option<Location>, tail: seq<string>): (r: Option<Location>) {
    match base
    case Some(l) => Some(Append(l, tail))
    case None => None
  }

  lemma ExtendNothing(base: Option<Location>)
    ensures Extend(base, []) == base
  {}

  lemma ExtendTwice(base: Option<Location>, a: seq<string>, b: seq<string>)
    ensures Extend(Extend(base, a), b) == Extend(base, a + b)
  {
    if base.Some? { CleanStackAppend(a, b, base.value.rooted, base.value.names); }
  }

  /** Where a path is, component by component from the deepest existing ancestor. */
  function Resolved(path: Location, eval: EvalSymlinks): (r: Option<Location>)
    decreases |path.names|
  {
    match eval(path)
    case Real(at) => Some(at)
    case Failed => None
    case NotExist =>
      if path.names == [] then None
      else Extend(Resolved(Front(path, |path.names| - 1), eval), [path.names[|path.names| - 1]])
  }

  /** How many names the deepest ancestor that exists has. */
  function Deepest(path: Location, eval: EvalSymlinks): (n: nat)
    ensures n <= |path.names|
    decreases |path.names|
  {
    if eval(path).NotExist? && path.names != [] then Deepest(Front(path, |path.names| - 1), eval) else |path.names|
  }

  lemma {:induction false} NothingDeeper(path: Location, eval: EvalSymlinks, k: nat)
    requires Deepest(path, eval) < k <= |path.names|
    ensures eval(Front(path, k)).NotExist?
    decreases |path.names|
  {
    if k == |path.names| {
      assert Front(path, k) == path;
    } else {
      NothingDeeper(Front(path, |path.names| - 1), eval, k);
      assert Front(Front(path, |path.names| - 1), k) == Front(path, k);
    }
  }

  lemma {:induction false} ResolvedFrom(path: Location, eval: EvalSymlinks)
    ensures var n := Deepest(path, eval);
      Resolved(path, eval) == Extend(Resolved(Front(path, n), eval), path.names[n..])
    ensures var e := eval(Front(path, Deepest(path, eval))); !e.NotExist? || Deepest(path, eval) == 0
    decreases |path.names|
  {
    var n := Deepest(path, eval);
    if n == |path.names| {
      assert Front(path, n) == path && path.names[n..] == [];
      ExtendNothing(Resolved(path, eval));
    } else {
      var parent, last := Front(path, |path.names| - 1), [path.names[|path.names| - 1]];
      ResolvedFrom(parent, eval);
      assert Front(parent, n) == Front(path, n);
      assert path.names[n..] == parent.names[n..] + last;
      ExtendTwice(Resolved(Front(path, n), eval), parent.names[n..], last);
    }
  }

  /** The deepest ancestor that exists decides: nothing longer exists, and the result is that ancestor,
      resolved, with the rest of the path put back below it; without such an ancestor, or where it cannot
      be resolved, there is none. */
  lemma DeepestAncestor(path: Location, eval: EvalSymlinks)
    ensures var n := Deepest(path, eval);
      && (forall k | n < k <= |path.names| :: eval(Front(path, k)).NotExist?)
      && (Resolved(path, eval).Some? <==> eval(Front(path, n)).Real?)
      && (Resolved(path, eval).Some? ==> Resolved(path, eval).value == Append(eval(Front(path, n)).at, path.names[n..]))
  {
    forall k | Deepest(path, eval) < k <= |path.names|
      ensures eval(Front(path, k)).NotExist?
    {
      NothingDeeper(path, eval, k);
    }
    ResolvedFrom(path, eval);
  }

  datatype Validation = Valid(at: Location) | Bad(error: PathError) | Unresolved | Escapes

  /** The path below the data directory that a relative path names. */
  function InDataDir(dataDir: Location, p: string): Location { dataDir.(names := dataDir.names + Components(p)) }

  /** `validatePath`, with `ResolveSymlinks` as its specification. */
  function ValidatePath(dataDir: Location, p: string, allowRoot: bool, eval: EvalSymlinks): (r: Validation) {
    match RejectBadRelativePath(p)
    case Some(error) => Bad(error)
    case None =>
      match Resolved(InDataDir(dataDir, p), eval)
      case None => Unresolved
      case Some(found) =>
        if IsSubPath(dataDir, found) || (allowRoot && found == dataDir) then Valid(found) else Escapes
  }

  /** Whatever the symlinks on disk do, and whatever the data directory is called, the path that
      validation returns lies below the data directory: it begins with the data directory's names and
      never goes back up. Only where the root is allowed it may be the data directory. */
  lemma ValidatedStaysInside(dataDir: Location, p: string, allowRoot: bool, eval: EvalSymlinks)
    ensures var v := ValidatePath(dataDir, p, allowRoot, eval);
      v.Valid? ==> StrictlyBelow(dataDir, v.at) || (allowRoot && v.at == dataDir)
  {
    var v := ValidatePath(dataDir, p, allowRoot, eval);
    if v.Valid? && IsSubPath(dataDir, v.at) { SubPathIsBelow(dataDir, v.at); }
  }

  /** And nothing that lies there is refused, where `EvalSymlinks` answers with clean paths. */
  lemma ValidatedIff(dataDir: Location, p: string, allowRoot: bool, eval: EvalSymlinks)
    requires forall q :: eval(q).Real? ==> "." !in eval(q).at.names
    ensures var found := Resolved(InDataDir(dataDir, p), eval);
      ValidatePath(dataDir, p, allowRoot, eval).Valid?
      <==> Accepted(p) && found.Some? && (StrictlyBelow(dataDir, found.value) || (allowRoot && found.value == dataDir))
  {
    var found := Resolved(InDataDir(dataDir, p), eval);
    if Accepted(p) && found.Some? {
      ResolvedNoDot(InDataDir(dataDir, p), eval);
      IsSubPathIff(dataDir, found.value);
    }
  }

  lemma {:induction false} ResolvedNoDot(path: Location, eval: EvalSymlinks)
    requires forall q :: eval(q).Real? ==> "." !in eval(q).at.names
    ensures Resolved(path, eval).Some? ==> "." !in Resolved(path, eval).value.names
    decreases |path.names|
  {
    if eval(path).NotExist? && path.names != [] {
      var parent, name := Front(path, |path.names| - 1), path.names[|path.names| - 1];
      ResolvedNoDot(parent, eval);
      if Resolved(parent, eval).Some? { AppendOne(Resolved(parent, eval).value, name); }
    }
  }

  /** Joining one component pushes it, pops one, or does nothing. */
  lemma AppendOne(l: Location, name: string)
    ensures var names := Append(l, [name]).names;
      names == l.names || (name != "." && names == l.names + [name])
        || (l.names != [] && names == l.names[..|l.names| - 1])
  {
    assert [name][1..] == [];
    assert CleanStack([], l.rooted, l.names + [name]) == l.names + [name]
      && CleanStack([], l.rooted, l.names) == l.names;
    if l.names != [] { assert CleanStack([], l.rooted, l.names[..|l.names| - 1]) == l.names[..|l.names| - 1]; }
  }

  /** Without symlinks, `EvalSymlinks` of an existing path is that path. */
  ghost predicate NoSymlinks(eval: EvalSymlinks) {
    && (forall rooted :: eval(Location(rooted, [])) == Real(Location(rooted, [])))
    && (forall q :: !eval(q).Failed? && (eval(q).Real? ==> eval(q).at == q))
  }

  lemma {:induction false} CleanStackLength(cs: seq<string>, rooted: bool, stack: seq<string>)
    ensures |CleanStack(cs, rooted, stack)| <= |stack| + |cs|
  {
    if cs == [] {
    } else if cs[0] == "" || cs[0] == "." {
      CleanStackLength(cs[1..], rooted, stack);
    } else if cs[0] == ".." {
      if stack != [] && stack[|stack| - 1] != ".." { CleanStackLength(cs[1..], rooted, stack[..|stack| - 1]); }
      else if rooted { CleanStackLength(cs[1..], rooted, stack); }
      else { CleanStackLength(cs[1..], rooted, stack + [".."]); }
    } else {
      CleanStackLength(cs[1..], rooted, stack + [cs[0]]);
    }
  }

  lemma SnocSplits<T>(a: seq<T>, b: seq<T>, x: T, y: T)
    requires a + [x] == b + [y]
    ensures a == b && x == y
  {
    assert (a + [x])[..|a + [x]| - 1] == a && (b + [y])[..|b + [y]| - 1] == b;
    assert (a + [x])[|a + [x]| - 1] == x && (b + [y])[|b + [y]| - 1] == y;
  }

  /** If a longest possible stack is left, cleaning did nothing before the last component either. */
  lemma CleanFront(front: seq<string>, last: string, rooted: bool)
    requires CleanStack(front + [last], rooted, []) == front + [last]
    ensures CleanStack(front, rooted, []) == front && CleanStack([last], rooted, front) == front + [last]
  {
    var cleaned := CleanStack(front, rooted, []);
    CleanStackAppend(front, [last], rooted, []);
    CleanStackLength(front, rooted, []);
    AppendOne(Location(rooted, cleaned), last);
    SnocSplits(front, cleaned, last, last);
  }

  /** The parent of a clean path is clean, and joining the last component leads back. */
  lemma CleanParent(l: Location)
    requires IsClean(l) && l.names != []
    ensures IsClean(Front(l, |l.names| - 1))
    ensures Append(Front(l, |l.names| - 1), [l.names[|l.names| - 1]]) == l
  {
    var n := |l.names| - 1;
    assert l.names[..n] + [l.names[n]] == l.names;
    CleanFront(l.names[..n], l.names[n], l.rooted);
  }

  lemma {:induction false} ResolvedNoSymlinks(path: Location, eval: EvalSymlinks)
    requires NoSymlinks(eval) && IsClean(path)
    ensures Resolved(path, eval) == Some(path)
    decreases |path.names|
  {
    if eval(path).NotExist? {
      CleanParent(path);
      ResolvedNoSymlinks(Front(path, |path.names| - 1), eval);
    }
  }

  /** Without symlinks the containment check never refuses more than the root: a path is valid
      exactly when it is clean and relative, and names the root only where the root is allowed. */
  lemma ValidWithoutSymlinks(dataDir: Location, p: string, allowRoot: bool, eval: EvalSymlinks)
    requires IsClean(dataDir) && NoSymlinks(eval)
    ensures ValidatePath(dataDir, p, allowRoot, eval) == Valid(InDataDir(dataDir, p))
       <==> Accepted(p) && (allowRoot || p !in {"", "."})
    ensures ValidatePath(dataDir, p, allowRoot, eval).Valid? ==> Accepted(p)
  {
    if Accepted(p) {
      var cs, path := Components(p), InDataDir(dataDir, p);
      ComponentsGood(p);
      AppendGood(dataDir, cs);
      ResolvedNoSymlinks(path, eval);
      BelowDataDir(dataDir, cs);
      if p !in {"", "."} { assert |cs| > 0; } else { assert path == dataDir; }
    }
  }

  lemma BelowDataDir(dataDir: Location, cs: seq<string>)
    requires IsClean(dataDir) && GoodComponents(cs)
    ensures IsSubPath(dataDir, dataDir.(names := dataDir.names + cs)) <==> cs != []
  {
    var l := dataDir.(names := dataDir.names + cs);
    assert "." !in cs && ".." !in cs by {
      forall i | 0 <= i < |cs| ensures cs[i] != "." && cs[i] != ".." { assert GoodComponent(cs[i]); }
    }
    assert l.names[|dataDir.names|..] == cs;
    IsSubPathIff(dataDir, l);
  }
}
