/** The data directory: files and directories by component path, the file-system calls of the
    handlers, and the atomic writes of `common/atomicwrite.go`. Any call may fail on a faulty disk.
    The ghost `history` records the files after every call that may change them, so a property of
    `history` is a property of every point at which the process may stop. */
module Disk {
  import opened Strings
  import opened OrderBy
  import opened DirRename
  import opened Faults

  type Path = seq<string>
  type Files = map<Path, string>

  function Parent(p: Path): Path { if p == [] then [] else p[..|p| - 1] }

  // ---- Temporary files ----

  /** The names `os.CreateTemp(dir, ".tmp-*")` picks: the prefix and a decimal number. */
  predicate IsTempName(name: string) {
    |name| > 5 && name[..5] == ".tmp-" && forall i | 5 <= i < |name| :: '0' <= name[i] <= '9'
  }

  predicate IsTempIn(dir: Path, p: Path) {
    p != [] && Parent(p) == dir && IsTempName(p[|p| - 1])
  }

  function Zeros(n: nat): (r: string)
    ensures |r| == n && forall i | 0 <= i < n :: r[i] == '0'
  {
    if n == 0 then "" else Zeros(n - 1) + "0"
  }

  /** Some unused temporary name. */
  function FreshTempName(dir: Path, taken: set<Path>, n: nat): (name: string)
    requires n > 0
    ensures IsTempName(name) && dir + [name] !in taken && |name| >= n + 5
    decreases |taken|
  {
    var name := ".tmp-" + Zeros(n);
    if dir + [name] !in taken then name
    else
      var later := FreshTempName(dir, taken - {dir + [name]}, n + 1);
      assert (dir + [later])[|dir|] == later && (dir + [name])[|dir|] == name;
      later
  }

  /** The two file maps agree but for temporary files in `dir`. */
  ghost predicate Agree(dir: Path, f: Files, g: Files) {
    forall p | !IsTempIn(dir, p) :: (p in f <==> p in g) && (p in f ==> f[p] == g[p])
  }

  // ---- Moving and removing subtrees ----

  function MovedFiles(files: Files, from: Path, to: Path): Files {
    map q | q in (set p | p in files :: Moved(from, to, p)) && Moved(to, from, q) in files :: files[Moved(to, from, q)]
  }

  function MovedDirs(dirs: set<Path>, from: Path, to: Path): set<Path> {
    set d | d in dirs :: Moved(from, to, d)
  }

  function FilesOutside(files: Files, target: Path): Files {
    map p | p in files && !(target <= p) :: files[p]
  }

  ghost predicate IsTree(files: Files, dirs: set<Path>) {
    && [] in dirs
    && files.Keys !! dirs
    && (forall p {:trigger Parent(p)} | p in files :: Parent(p) in dirs)
    && (forall d {:trigger Parent(d)} | d in dirs :: Parent(d) in dirs)
  }

  /** In a tree nothing lies at or below a path that is not there. */
  lemma {:induction false} NothingBelow(files: Files, dirs: set<Path>, p: Path, q: Path)
    requires IsTree(files, dirs) && p !in files && p !in dirs && p <= q
    ensures q !in files && q !in dirs
    decreases |q|
  {
    if |q| > |p| {
      NothingBelow(files, dirs, p, Parent(q));
    } else {
      assert q == p;
    }
  }

  /** Siblings do not contain each other. */
  predicate Siblings(a: Path, b: Path) { a != [] && |a| == |b| && Parent(a) == Parent(b) }

  lemma MovedBack(from: Path, to: Path, p: Path)
    requires Siblings(from, to) && (to <= p ==> from == to)
    ensures Moved(to, from, Moved(from, to, p)) == p
  {
    if from <= p {
      assert (to + p[|from|..])[|to|..] == p[|from|..];
      assert from + p[|from|..] == p;
    }
  }

  lemma MovedParent(from: Path, to: Path, p: Path)
    requires Siblings(from, to)
    ensures Parent(Moved(from, to, p)) == Moved(from, to, Parent(p)) || Parent(Moved(from, to, p)) == Parent(p)
    ensures p != from ==> Parent(Moved(from, to, p)) == Moved(from, to, Parent(p))
    ensures p == from ==> Parent(Moved(from, to, p)) == Parent(from) == Moved(from, to, Parent(from))
  {
    if p == from {
      assert Moved(from, to, p) == to;
    } else if from <= p {
      assert from <= Parent(p);
      assert Parent(p)[|from|..] == p[|from|..][..|p| - |from| - 1];
    }
  }

  lemma MovedThereAndBack(files: Files, dirs: set<Path>, from: Path, to: Path, p: Path)
    requires IsTree(files, dirs) && Siblings(from, to) && (from == to || (to !in files && to !in dirs))
    requires p in files || p in dirs
    ensures Moved(to, from, Moved(from, to, p)) == p
  {
    if to <= p && from != to { NothingBelow(files, dirs, to, p); }
    MovedBack(from, to, p);
  }

  /** The subtree move takes a file to its moved path, with its content. */
  lemma MovedFileAt(files: Files, dirs: set<Path>, from: Path, to: Path, p: Path)
    requires IsTree(files, dirs) && Siblings(from, to) && (from == to || (to !in files && to !in dirs)) && p in files
    ensures Moved(from, to, p) in MovedFiles(files, from, to)
    ensures MovedFiles(files, from, to)[Moved(from, to, p)] == files[p]
  {
    MovedThereAndBack(files, dirs, from, to, p);
  }

  /** Every file after the move was one before it. */
  lemma MovedFileFrom(files: Files, from: Path, to: Path, q: Path) returns (p: Path)
    requires q in MovedFiles(files, from, to)
    ensures p in files && q == Moved(from, to, p)
  {
    p :| p in files && q == Moved(from, to, p);
  }

  /** A file map that holds every file at its moved path, and nothing else, moves back to the original. */
  lemma MoveBack(files: Files, there: Files, from: Path, to: Path)
    requires forall p | p in files ::
      Moved(from, to, p) in there && there[Moved(from, to, p)] == files[p] && Moved(to, from, Moved(from, to, p)) == p
    requires forall q | q in there :: Moved(to, from, q) in files && q == Moved(from, to, Moved(to, from, q))
    ensures MovedFiles(there, to, from) == files
  {
    var back := MovedFiles(there, to, from);
    forall p | p in files ensures p in back && back[p] == files[p] {
      assert p == Moved(to, from, Moved(from, to, p));
    }
    forall p | p in back ensures p in files {
      var q :| q in there && p == Moved(to, from, q);
    }
  }

  /** Moving a directory back undoes the move. */
  lemma MovedFilesBack(files: Files, dirs: set<Path>, from: Path, to: Path)
    requires IsTree(files, dirs) && Siblings(from, to) && (from == to || (to !in files && to !in dirs))
    ensures MovedFiles(MovedFiles(files, from, to), to, from) == files
  {
    var there := MovedFiles(files, from, to);
    forall p | p in files
      ensures Moved(from, to, p) in there && there[Moved(from, to, p)] == files[p]
      ensures Moved(to, from, Moved(from, to, p)) == p
    {
      MovedFileAt(files, dirs, from, to, p);
      MovedThereAndBack(files, dirs, from, to, p);
    }
    forall q | q in there ensures Moved(to, from, q) in files && q == Moved(from, to, Moved(to, from, q)) {
      var p := MovedFileFrom(files, from, to, q);
      MovedThereAndBack(files, dirs, from, to, p);
    }
    MoveBack(files, there, from, to);
  }

  /** The move, path by path: the subtree is below the new path with its contents, nothing is left below the old
      one, and everything else is as it was. */
  lemma MovedFilesIff(files: Files, dirs: set<Path>, from: Path, to: Path)
    requires IsTree(files, dirs) && Siblings(from, to) && from != to && to !in files && to !in dirs
    ensures var there := MovedFiles(files, from, to);
      && (forall q | to <= q :: q in there <==> from + q[|to|..] in files)
      && (forall q | to <= q && q in there :: there[q] == files[from + q[|to|..]])
      && (forall q | from <= q :: q !in there)
      && (forall q | !(to <= q) && !(from <= q) :: q in there <==> q in files)
      && (forall q | !(to <= q) && !(from <= q) && q in there :: there[q] == files[q])
  {
    var there := MovedFiles(files, from, to);
    forall q ensures q in there <==> !(from <= q) && Moved(to, from, q) in files {
      if q in there {
        var p := MovedFileFrom(files, from, to, q);
        MovedThereAndBack(files, dirs, from, to, p);
        NotBoth(from, to, p);
      }
      if !(from <= q) && Moved(to, from, q) in files {
        MovedThereAndBack(files, dirs, from, to, Moved(to, from, q));
        NotBoth(from, to, q);
        MovedFileAt(files, dirs, from, to, Moved(to, from, q));
      }
    }
  }

  lemma MovedDirsIff(files: Files, dirs: set<Path>, from: Path, to: Path)
    requires IsTree(files, dirs) && Siblings(from, to) && from != to && to !in files && to !in dirs
    ensures var there := MovedDirs(dirs, from, to);
      && (forall q | to <= q :: q in there <==> from + q[|to|..] in dirs)
      && (forall q | from <= q :: q !in there)
      && (forall q | !(to <= q) && !(from <= q) :: q in there <==> q in dirs)
  {
    var there := MovedDirs(dirs, from, to);
    forall q ensures q in there <==> !(from <= q) && Moved(to, from, q) in dirs {
      if q in there {
        var d :| d in dirs && q == Moved(from, to, d);
        MovedThereAndBack(files, dirs, from, to, d);
        NotBoth(from, to, d);
      }
      if !(from <= q) && Moved(to, from, q) in dirs {
        NotBoth(from, to, q);
        assert Moved(from, to, Moved(to, from, q)) in there;
      }
    }
  }

  lemma NotBoth(from: Path, to: Path, p: Path)
    requires Siblings(from, to) && from != to
    ensures !(from <= p && to <= p) && !(from <= Moved(from, to, p))
    ensures !(from <= p) ==> Moved(from, to, Moved(to, from, p)) == p
  {}

  lemma MovedDirsBack(files: Files, dirs: set<Path>, from: Path, to: Path)
    requires IsTree(files, dirs) && Siblings(from, to) && (from == to || (to !in files && to !in dirs))
    ensures MovedDirs(MovedDirs(dirs, from, to), to, from) == dirs
  {
    var there := MovedDirs(dirs, from, to);
    forall d | d in dirs ensures d in MovedDirs(there, to, from) {
      MovedThereAndBack(files, dirs, from, to, d);
      assert Moved(from, to, d) in there;
    }
    forall d | d in MovedDirs(there, to, from) ensures d in dirs {
      var e :| e in there && d == Moved(to, from, e);
      var f :| f in dirs && e == Moved(from, to, f);
      MovedThereAndBack(files, dirs, from, to, f);
    }
  }

  lemma MovedParentIn(files: Files, dirs: set<Path>, from: Path, to: Path, p: Path)
    requires IsTree(files, dirs) && Siblings(from, to) && (p in files || p in dirs)
    ensures Parent(Moved(from, to, p)) in MovedDirs(dirs, from, to)
  {
    MovedParent(from, to, p);
    assert Parent(p) in dirs;
    assert Moved(from, to, Parent(p)) in MovedDirs(dirs, from, to);
  }

  lemma MovedTree(files: Files, dirs: set<Path>, from: Path, to: Path)
    requires IsTree(files, dirs) && Siblings(from, to) && from in dirs && to !in files && to !in dirs
    ensures IsTree(MovedFiles(files, from, to), MovedDirs(dirs, from, to))
  {
    var files', dirs' := MovedFiles(files, from, to), MovedDirs(dirs, from, to);
    assert Moved(from, to, []) == [] && [] in dirs;
    assert [] in dirs';
    forall q | q in files' ensures Parent(q) in dirs' && q !in dirs' { MovedFileTree(files, dirs, from, to, q); }
    forall e | e in dirs' ensures Parent(e) in dirs' {
      var d :| d in dirs && e == Moved(from, to, d);
      MovedParentIn(files, dirs, from, to, d);
    }
  }

  lemma MovedFileTree(files: Files, dirs: set<Path>, from: Path, to: Path, q: Path)
    requires IsTree(files, dirs) && Siblings(from, to) && from in dirs && to !in files && to !in dirs
    requires q in MovedFiles(files, from, to)
    ensures Parent(q) in MovedDirs(dirs, from, to) && q !in MovedDirs(dirs, from, to)
  {
    var p := MovedFileFrom(files, from, to, q);
    MovedParentIn(files, dirs, from, to, p);
    MovedThereAndBack(files, dirs, from, to, p);
    forall d | d in dirs ensures Moved(from, to, d) != q { MovedThereAndBack(files, dirs, from, to, d); }
  }

  lemma MoveNowhere(files: Files, dirs: set<Path>, p: Path)
    ensures MovedFiles(files, p, p) == files && MovedDirs(dirs, p, p) == dirs
  {
    assert forall q :: Moved(p, p, q) == q;
  }

  /** At this point of an atomic write, `path` is what it was, or entirely `data`, or cleaned up. */
  ghost predicate WriteState(h: Files, before: Files, path: Path, data: string, cleanup: bool) {
    || Agree(Parent(path), h, before)
    || Agree(Parent(path), h, before[path := data])
    || (cleanup && Agree(Parent(path), h, before - {path}))
  }

  // ---- Directory listings ----

  datatype DirEntry = DirEntry(name: string, isDir: bool)

  function Last(p: Path): string { if p == [] then "" else p[|p| - 1] }

  function Entries(files: Files, dirs: set<Path>, dir: Path): set<DirEntry> {
    (set d | d in dirs && d != [] && Parent(d) == dir :: DirEntry(Last(d), true))
    + (set p | p in files && p != [] && Parent(p) == dir :: DirEntry(Last(p), false))
  }

  /** Each child of a directory is an entry, by its name and kind. */
  lemma EntriesIff(files: Files, dirs: set<Path>, dir: Path)
    ensures forall name ::
      && (DirEntry(name, true) in Entries(files, dirs, dir) <==> dir + [name] in dirs)
      && (DirEntry(name, false) in Entries(files, dirs, dir) <==> dir + [name] in files)
  {
    forall name
      ensures DirEntry(name, true) in Entries(files, dirs, dir) <==> dir + [name] in dirs
      ensures DirEntry(name, false) in Entries(files, dirs, dir) <==> dir + [name] in files
    {
      assert Parent(dir + [name]) == dir && Last(dir + [name]) == name;
      forall p | p != [] && Parent(p) == dir && Last(p) == name ensures p == dir + [name] {}
    }
  }

  /** `os.ReadDir` sorts by name. */
  predicate NameLe(a: DirEntry, b: DirEntry) { !Less(b.name, a.name) }

  lemma NameLeTotalPreorder()
    ensures TotalPreorder(NameLe)
  {
    forall x, y ensures NameLe(x, y) || NameLe(y, x) {
      if Less(x.name, y.name) && Less(y.name, x.name) {
        LessTransitive(x.name, y.name, x.name);
        LessIrreflexive(x.name);
      }
    }
    forall x, y, z | NameLe(x, y) && NameLe(y, z) ensures NameLe(x, z) { NotLessTransitive(z.name, y.name, x.name); }
  }

  datatype Stat = IsFile | IsDir | Absent | StatFailed
  datatype Result = Ok | NotExist | Failed
  datatype WriteResult = Written | NotWritten | NotRenamed
  datatype CreateResult = Created | Exists | CreateFailed | SentinelLeft

  class Disk {
    var files: Files
    var dirs: set<Path>
    ghost var history: seq<Files>
    const faulty: bool

    /** A tree: the root is a directory, and everything else lies in a directory. */
    ghost predicate Valid()
      reads this
    {
      IsTree(files, dirs)
    }

    constructor (faulty: bool)
      ensures Valid() && files == map[] && dirs == {[]} && history == [] && this.faulty == faulty
    {
      files, dirs, history := map[], {[]}, [];
      this.faulty := faulty;
    }

    // ---- Calls ----

    method Stat(p: Path) returns (r: Stat)
      ensures r.IsFile? ==> p in files
      ensures r.IsDir? ==> p !in files && p in dirs
      ensures r.Absent? ==> p !in files && p !in dirs
      ensures !faulty ==> !r.StatFailed?
    {
      var ok := Reach(faulty);
      if !ok { return StatFailed; }
      r := if p in files then IsFile else if p in dirs then IsDir else Absent;
    }

    method ReadFile(p: Path) returns (r: Option<string>, missing: bool)
      ensures r.Some? ==> p in files && r.value == files[p]
      ensures missing ==> p !in files
      ensures !faulty ==> (r.Some? <==> p in files) && (missing <==> p !in files)
    {
      var ok := Reach(faulty);
      if !ok { return None, false; }
      if p !in files { return None, true; }
      r, missing := Some(files[p]), false;
    }

    method ReadDir(dir: Path) returns (r: Option<seq<DirEntry>>)
      ensures r.Some? ==> dir in dirs && Lists(r.value, Entries(files, dirs, dir)) && Sorted(r.value, NameLe)
      ensures !faulty ==> (r.Some? <==> dir in dirs)
    {
      var ok := Reach(faulty);
      if !ok || dir !in dirs { return None; }
      NameLeTotalPreorder();
      var entries := Select(Entries(files, dirs, dir), NameLe);
      r := Some(entries);
    }

    /** `os.OpenFile(p, O_CREATE|O_EXCL|O_WRONLY)`. */
    method OpenExclusive(p: Path) returns (r: CreateResult)
      requires Valid() && p != []
      modifies `files, `history
      ensures Valid() && history == old(history) + [files]
      ensures r.Created? ==> p !in old(files) && p !in dirs && files == old(files)[p := ""]
      ensures !r.Created? ==> files == old(files)
      ensures r.Exists? ==> p in old(files) || p in dirs
      ensures !faulty ==> (r.Exists? <==> p in old(files) || p in dirs)
      ensures !r.SentinelLeft?
      ensures !faulty && Parent(p) in dirs && p !in old(files) && p !in dirs ==> r.Created?
    {
      var ok := Reach(faulty);
      if ok && (p in files || p in dirs) {
        r := Exists;
      } else if ok && Parent(p) in dirs {
        files := files[p := ""];
        r := Created;
      } else {
        r := CreateFailed;
      }
      history := history + [files];
    }

    method CreateTemp(dir: Path) returns (ok: bool, p: Path)
      requires Valid()
      modifies `files, `history
      ensures Valid() && history == old(history) + [files]
      ensures ok ==> IsTempIn(dir, p) && p !in old(files) && p !in dirs && files == old(files)[p := ""]
      ensures !ok ==> files == old(files)
      ensures !faulty && dir in dirs ==> ok
    {
      ok := Reach(faulty);
      p := [];
      if ok && dir in dirs {
        var name: string := *;
        if !IsTempName(name) || dir + [name] in files || dir + [name] in dirs {
          name := FreshTempName(dir, files.Keys + dirs, 1);
        }
        p := dir + [name];
        assert Parent(p) == dir;
        files := files[p := ""];
      } else {
        ok := false;
      }
      history := history + [files];
    }

    /** Writing to an open file; a failed write may leave anything in it. */
    method Write(p: Path, data: string) returns (ok: bool)
      requires Valid() && p in files
      modifies `files, `history
      ensures Valid() && history == old(history) + [files]
      ensures files.Keys == old(files).Keys && forall q | q in files && q != p :: files[q] == old(files)[q]
      ensures ok ==> files[p] == data
      ensures !faulty ==> ok
    {
      ok := Reach(faulty);
      var content: string := *;
      files := files[p := if ok then data else content];
      history := history + [files];
    }

    /** `os.Rename` on files: atomic, and over an existing file. */
    method Rename(from: Path, to: Path) returns (r: Result)
      requires Valid() && from != to && Parent(to) == Parent(from)
      modifies `files, `history
      ensures Valid() && history == old(history) + [files]
      ensures r.Ok? ==> from in old(files) && to !in dirs && files == (old(files) - {from})[to := old(files)[from]]
      ensures !r.Ok? ==> files == old(files)
      ensures r.NotExist? ==> from !in files
      ensures !faulty && from in old(files) && to !in dirs ==> r.Ok?
    {
      var ok := Reach(faulty);
      if !ok || (from in files && to in dirs) {
        r := Failed;
      } else if from !in files {
        r := NotExist;
      } else {
        files := (files - {from})[to := files[from]];
        r := Ok;
      }
      history := history + [files];
    }

    /** `os.Remove` of a file. */
    method Remove(p: Path) returns (r: Result)
      requires Valid()
      modifies `files, `history
      ensures Valid() && history == old(history) + [files]
      ensures r.Ok? ==> p in old(files) && files == old(files) - {p}
      ensures !r.Ok? ==> files == old(files)
      ensures r.NotExist? ==> p !in files
      ensures !faulty ==> (r.Ok? <==> p in old(files)) && !r.Failed?
    {
      var ok := Reach(faulty);
      if !ok {
        r := Failed;
      } else if p !in files {
        r := NotExist;
      } else {
        files := files - {p};
        r := Ok;
      }
      history := history + [files];
    }

    method Mkdir(p: Path) returns (ok: bool)
      requires Valid() && p != []
      modifies `dirs
      ensures Valid()
      ensures ok ==> p !in files && p !in old(dirs) && Parent(p) in old(dirs) && dirs == old(dirs) + {p}
      ensures !ok ==> dirs == old(dirs)
      ensures !faulty && p !in files && p !in old(dirs) && Parent(p) in old(dirs) ==> ok
    {
      ok := Reach(faulty);
      if ok && p !in files && p !in dirs && Parent(p) in dirs {
        dirs := dirs + {p};
      } else {
        ok := false;
      }
    }

    /** `os.Rename` on a directory, within its parent and to a free name or its own. */
    method RenameDir(from: Path, to: Path) returns (ok: bool)
      requires Valid() && Siblings(from, to)
      modifies `files, `dirs, `history
      ensures Valid() && history == old(history) + [files]
      ensures ok ==> from in old(dirs) && (from == to || (to !in old(files) && to !in old(dirs)))
                     && files == MovedFiles(old(files), from, to) && dirs == MovedDirs(old(dirs), from, to)
      ensures !ok ==> files == old(files) && dirs == old(dirs)
      ensures !faulty && from in old(dirs) && (from == to || (to !in old(files) && to !in old(dirs))) ==> ok
    {
      ok := Reach(faulty);
      if ok && from in dirs && from != to && to !in files && to !in dirs {
        MovedTree(files, dirs, from, to);
        files, dirs := MovedFiles(files, from, to), MovedDirs(dirs, from, to);
      } else {
        ok := ok && from in dirs && from == to;
        if ok {
          MoveNowhere(files, dirs, from);
        }
      }
      history := history + [files];
    }

    /** `os.RemoveAll`: on failure any part of the subtree may be gone. */
    method RemoveAll(target: Path) returns (ok: bool)
      requires Valid() && target != []
      modifies `files, `dirs, `history
      ensures Valid() && history == old(history) + [files]
      ensures ok ==> files == FilesOutside(old(files), target) && dirs == set d | d in old(dirs) && !(target <= d)
      ensures FilesOutside(files, target) == FilesOutside(old(files), target)
      ensures forall p | p in files :: p in old(files) && files[p] == old(files)[p]
      ensures !faulty ==> ok
    {
      ok := Reach(faulty);
      var files0, dirs0 := files, dirs;
      if ok {
        files := FilesOutside(files0, target);
        dirs := set d | d in dirs0 && !(target <= d);
        forall p | p in files0 || p in dirs0 ensures target <= Parent(p) ==> target <= p {}
      } else {
        var some: set<Path> := *;
        files := map p | p in files0 && !(target <= p && p in some) :: files0[p];
        var left := set d | d in dirs0 && !(target <= d && d in some);
        if (forall p | p in files :: Parent(p) in left) && (forall d | d in left :: Parent(d) in left) { dirs := left; }
      }
      history := history + [files];
    }

    // ---- common/atomicwrite.go ----

    /** `atomicWrite`: a temporary file in the same directory, renamed over `path`; `cleanup` removes
        `path` when an earlier step fails. At every point `path` is what it was, or entirely `data`,
        or, with a cleanup, gone. */
    method AtomicWrite(path: Path, data: string, cleanup: bool) returns (r: WriteResult)
      requires Valid() && path != [] && !IsTempIn(Parent(path), path)
      modifies `files, `history
      ensures Valid() && old(history) <= history
      ensures r.Written? ==> files == old(files)[path := data]
      ensures r.NotRenamed? ==> Agree(Parent(path), files, old(files))
      ensures r.NotWritten? ==>
        Agree(Parent(path), files, old(files)) || (cleanup && Agree(Parent(path), files, old(files) - {path}))
      ensures forall i | |old(history)| <= i < |history| :: WriteState(history[i], old(files), path, data, cleanup)
      ensures !faulty && Parent(path) in dirs && path !in dirs ==> r.Written?
      ensures !faulty && r.NotWritten? && cleanup ==> path !in files
    {
      ghost var before, start := files, |history|;
      var made, ok, tmp := WriteTemp(path, data, cleanup);
      if ok {
        r := Commit(tmp, path, data, cleanup, before, start);
      } else {
        CleanUp(path, cleanup, before, data, start);
        if made { Discard(tmp, path, before, data, cleanup, start); }
        r := NotWritten;
      }
    }

    /** The final rename, and the deferred removal of the temporary file. */
    method Commit(tmp: Path, path: Path, ghost data: string, cleanup: bool, ghost before: Files, ghost start: nat)
      returns (r: WriteResult)
      requires Valid() && path != [] && !IsTempIn(Parent(path), path) && start <= |history|
      requires IsTempIn(Parent(path), tmp) && tmp !in before && tmp in files && files == before[tmp := data]
      requires forall i | start <= i < |history| :: WriteState(history[i], before, path, data, cleanup)
      modifies `files, `history
      ensures Valid() && old(history) <= history
      ensures r.Written? || r.NotRenamed?
      ensures r.Written? ==> files == before[path := data]
      ensures r.NotRenamed? ==> Agree(Parent(path), files, before)
      ensures forall i | start <= i < |history| :: WriteState(history[i], before, path, data, cleanup)
      ensures !faulty && path !in dirs ==> r.Written?
    {
      var renamed := Rename(tmp, path);
      assert renamed.Ok? ==> files == before[path := data];
      Discard(tmp, path, before, data, cleanup, start);
      r := if renamed.Ok? then Written else NotRenamed;
    }

    /** Create, write, sync and close the temporary file. */
    method WriteTemp(path: Path, data: string, ghost cleanup: bool) returns (made: bool, ok: bool, tmp: Path)
      requires Valid() && path != []
      modifies `files, `history
      ensures Valid() && old(history) <= history
      ensures ok ==> made
      ensures made ==> IsTempIn(Parent(path), tmp) && tmp !in old(files) && tmp !in dirs && tmp in files
                       && files == old(files)[tmp := files[tmp]]
      ensures ok ==> files[tmp] == data
      ensures !made ==> files == old(files)
      ensures forall i | |old(history)| <= i < |history| :: WriteState(history[i], old(files), path, data, cleanup)
      ensures !faulty && Parent(path) in dirs ==> ok
    {
      ghost var start := |history|;
      made, tmp := CreateTemp(Parent(path));
      ok := made;
      if !ok { return; }
      ok := Write(tmp, data);
      if ok { ok := Reach(faulty); }
      if ok { ok := Reach(faulty); }
    }

    /** The cleanup closure of `CreateExclusive`. */
    method CleanUp(path: Path, cleanup: bool, ghost before: Files, ghost data: string, ghost start: nat)
      requires Valid() && start <= |history|
      requires Agree(Parent(path), files, before)
      requires forall i | start <= i < |history| :: WriteState(history[i], before, path, data, cleanup)
      modifies `files, `history
      ensures Valid() && old(history) <= history
      ensures forall p | p in old(files) && p != path :: p in files && files[p] == old(files)[p]
      ensures Agree(Parent(path), files, before) || (cleanup && Agree(Parent(path), files, before - {path}))
      ensures forall i | start <= i < |history| :: WriteState(history[i], before, path, data, cleanup)
      ensures !faulty && cleanup ==> path !in files
    {
      if !cleanup { return; }
      var _ := Remove(path);
    }

    /** `defer os.Remove(tmp.Name())`. */
    method Discard(tmp: Path, path: Path, ghost before: Files, ghost data: string, cleanup: bool, ghost start: nat)
      requires Valid() && start <= |history| && IsTempIn(Parent(path), tmp)
      requires WriteState(files, before, path, data, cleanup)
      requires forall i | start <= i < |history| :: WriteState(history[i], before, path, data, cleanup)
      modifies `files, `history
      ensures Valid() && old(history) <= history
      ensures files == old(files) || files == old(files) - {tmp}
      ensures forall i | start <= i < |history| :: WriteState(history[i], before, path, data, cleanup)
    {
      var _ := Remove(tmp);
    }

    /** `CreateExclusive`: a sentinel takes the name, then the data replaces it. A failed final rename
        leaves the empty sentinel behind, and so does a cleanup that itself fails. */
    method CreateExclusive(path: Path, data: string) returns (r: CreateResult)
      requires Valid() && path != [] && !IsTempIn(Parent(path), path)
      modifies `files, `history
      ensures Valid() && old(history) <= history
      ensures r.Created? ==> path !in old(files) && path !in dirs && files == old(files)[path := data]
      ensures r.Exists? ==> path in old(files) || path in dirs
      ensures !faulty ==> (r.Exists? <==> path in old(files) || path in dirs)
      ensures r.Exists? || path in old(files) || path in dirs ==> files == old(files)
      ensures r.SentinelLeft? ==> path !in old(files) && Agree(Parent(path), files, old(files)[path := ""])
      ensures r.CreateFailed? ==>
        || Agree(Parent(path), files, old(files))
        || (path !in old(files) && Agree(Parent(path), files, old(files)[path := ""]))
      ensures forall i | |old(history)| <= i < |history| ::
        || Agree(Parent(path), history[i], old(files))
        || (path !in old(files) && Agree(Parent(path), history[i], old(files)[path := ""]))
        || (path !in old(files) && Agree(Parent(path), history[i], old(files)[path := data]))
      ensures !faulty && Parent(path) in dirs && path !in old(files) && path !in dirs ==> r.Created?
    {
      ghost var before, start := files, |history|;
      r := OpenExclusive(path);
      if !r.Created? { return; }
      ghost var sentinel := files;
      assert sentinel - {path} == before && sentinel[path := data] == before[path := data];
      var w := AtomicWrite(path, data, true);
      match w
      case Written => r := Created;
      case NotRenamed => r := SentinelLeft;
      case NotWritten => r := CreateFailed;
    }
  }

  /** `RequireDir` (common/pathutil.go). */
  method RequireDir(disk: Disk, dir: Path) returns (ok: bool)
    ensures ok ==> dir in disk.dirs
    ensures !disk.faulty && disk.Valid() ==> (ok <==> dir in disk.dirs)
  {
    var st := disk.Stat(dir);
    ok := st.IsDir?;
  }
}
