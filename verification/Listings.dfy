/** `ListFiles`: the folders, task lists and notes of a directory, with child counts for folders. */
module Listings {
  import opened Strings
  import opened Rows
  import opened OrderBy
  import opened Paths
  import opened NotePaths
  import opened Disk
  import opened Notes
  import D = Database
  import L = TaskLists

  datatype FileEntry =
    | FolderEntry(path: string, title: string, childCount: nat)
    | ListEntry(path: string, title: string, id: string, updatedAt: int, total: nat, done: nat)
    | NoteEntry(path: string, title: string, id: string, updatedAt: int, preview: string)

  /** `entryPath`. */
  function EntryPath(requestParentDir: string, name: string): string {
    if requestParentDir == "" then name
    else if requestParentDir[|requestParentDir| - 1] == '/' then requestParentDir + name
    else requestParentDir + "/" + name
  }

  function IsFolder(): DirEntry -> bool { (e: DirEntry) => e.isDir }

  function SubDirs(files: Files, dirs: set<Path>, dir: Path): set<DirEntry> {
    set e | e in Entries(files, dirs, dir) && e.isDir
  }

  function RowCount(notes: map<string, NoteRow>, lists: map<string, ListRow>, dir: string): nat {
    |D.NotesIn(notes, dir)| + |D.ListsIn(lists, dir)|
  }

  /** Filtering the listing of a directory finds each of its subdirectories once. */
  lemma FolderCount(entries: seq<DirEntry>, files: Files, dirs: set<Path>, dir: Path)
    requires Lists(entries, Entries(files, dirs, dir))
    ensures Lists(Filter(entries, IsFolder()), SubDirs(files, dirs, dir))
    ensures |Filter(entries, IsFolder())| == |SubDirs(files, dirs, dir)|
  {
    var folders := Filter(entries, IsFolder());
    FilterIn(entries, IsFolder());
    FilterOrdered(entries, IsFolder(), NameLe);
    DistinctCount(folders);
    assert Elements(folders) == SubDirs(files, dirs, dir);
  }

  lemma NextFolder(dirEntries: seq<DirEntry>, i: nat)
    requires i < |dirEntries|
    ensures Filter(dirEntries[..i + 1], IsFolder())
         == Filter(dirEntries[..i], IsFolder()) + if dirEntries[i].isDir then [dirEntries[i]] else []
  {
    FilterSnoc(dirEntries[..i], dirEntries[i], IsFolder());
    assert dirEntries[..i] + [dirEntries[i]] == dirEntries[..i + 1];
  }

  /** `buildFolderEntry`: subdirectories on disk plus rows in the database; a part that cannot be read
      counts as zero. */
  method BuildFolderEntry(disk: Disk, db: D.Database, absPath: Path, name: string, requestParentDir: string)
    returns (e: FileEntry)
    ensures e.FolderEntry? && e.path == EntryPath(requestParentDir, name) && e.title == name
    ensures var s, r := |SubDirs(disk.files, disk.dirs, absPath)|,
        RowCount(db.notes, db.lists, EntryPath(requestParentDir, name));
      e.childCount in {0, s, r, s + r}
    ensures !disk.faulty && !db.faulty && absPath in disk.dirs ==>
      e.childCount == |SubDirs(disk.files, disk.dirs, absPath)|
        + RowCount(db.notes, db.lists, EntryPath(requestParentDir, name))
  {
    var childCount := 0;
    var folderRelPath := EntryPath(requestParentDir, name);
    var entries := disk.ReadDir(absPath);
    if entries.Some? {
      for i := 0 to |entries.value|
        invariant childCount == |Filter(entries.value[..i], IsFolder())|
      {
        NextFolder(entries.value, i);
        if entries.value[i].isDir { childCount := childCount + 1; }
      }
      assert entries.value[..|entries.value|] == entries.value;
      FolderCount(entries.value, disk.files, disk.dirs, absPath);
    }
    var dbCount := db.CountChildrenInDir(folderRelPath);
    if dbCount.Done? { childCount := childCount + dbCount.value; }
    e := FolderEntry(folderRelPath, name, childCount);
  }

  function ToListEntry(dir: string, c: D.CountedList): FileEntry {
    ListEntry(EntryPath(dir, c.list.title), c.list.title, c.list.id, c.list.updatedAt, c.total, c.done)
  }

  function ToNoteEntry(dir: string, row: NoteRow): FileEntry {
    NoteEntry(EntryPath(dir, NoteFile(row.title, row.id)), row.title, row.id, row.updatedAt, row.preview)
  }

  /** The number of entries of a directory. */
  function ListingSize(files: Files, dirs: set<Path>, notes: map<string, NoteRow>, lists: map<string, ListRow>,
                       dir: string): nat {
    |SubDirs(files, dirs, Components(dir))| + RowCount(notes, lists, dir)
  }

  /** The folder entries, in the order of the directory listing. */
  ghost predicate FoldersOf(entries: seq<FileEntry>, folders: seq<DirEntry>, dir: string) {
    |entries| == |folders| && forall i | 0 <= i < |folders| ::
      entries[i].FolderEntry? && entries[i].title == folders[i].name
        && entries[i].path == EntryPath(dir, folders[i].name)
  }

  /** The count of a folder entry, when both stores can be read. */
  ghost predicate CountOk(e: FileEntry, files: Files, dirs: set<Path>, notes: map<string, NoteRow>,
                          lists: map<string, ListRow>, dir: string) {
    e.FolderEntry? ==>
      e.childCount == |SubDirs(files, dirs, Components(dir) + [e.title])| + RowCount(notes, lists, e.path)
  }

  lemma EntryIsDir(files: Files, dirs: set<Path>, dir: Path, e: DirEntry)
    requires e in Entries(files, dirs, dir) && e.isDir
    ensures dir + [e.name] in dirs
  {
    var d :| d in dirs && d != [] && Parent(d) == dir && e == DirEntry(Last(d), true);
    assert d == dir + [e.name];
  }

  /** The first loop of `ListFiles`. */
  method FolderEntries(disk: Disk, db: D.Database, dirEntries: seq<DirEntry>, parentDir: Path, requestParentDir: string)
    returns (result: seq<FileEntry>)
    requires parentDir == Components(requestParentDir) && Lists(dirEntries, Entries(disk.files, disk.dirs, parentDir))
    ensures FoldersOf(result, Filter(dirEntries, IsFolder()), requestParentDir)
    ensures !disk.faulty && !db.faulty ==>
      forall e | e in result :: CountOk(e, disk.files, disk.dirs, db.notes, db.lists, requestParentDir)
  {
    result := [];
    for i := 0 to |dirEntries|
      invariant FoldersOf(result, Filter(dirEntries[..i], IsFolder()), requestParentDir)
      invariant !disk.faulty && !db.faulty ==>
        forall e | e in result :: CountOk(e, disk.files, disk.dirs, db.notes, db.lists, requestParentDir)
    {
      var e := dirEntries[i];
      NextFolder(dirEntries, i);
      if !e.isDir { continue; }
      EntryIsDir(disk.files, disk.dirs, parentDir, e);
      var entry := BuildFolderEntry(disk, db, parentDir + [e.name], e.name, requestParentDir);
      result := result + [entry];
    }
    assert dirEntries[..|dirEntries|] == dirEntries;
  }

  /** The second loop. */
  method ListEntries(rows: seq<D.CountedList>, dir: string) returns (result: seq<FileEntry>)
    ensures |result| == |rows| && forall i | 0 <= i < |rows| :: result[i] == ToListEntry(dir, rows[i])
  {
    result := [];
    for i := 0 to |rows|
      invariant |result| == i && forall k | 0 <= k < i :: result[k] == ToListEntry(dir, rows[k])
    {
      result := result + [ToListEntry(dir, rows[i])];
    }
  }

  /** The third loop. */
  method NoteEntries(rows: seq<NoteRow>, dir: string) returns (result: seq<FileEntry>)
    ensures |result| == |rows| && forall i | 0 <= i < |rows| :: result[i] == ToNoteEntry(dir, rows[i])
  {
    result := [];
    for i := 0 to |rows|
      invariant |result| == i && forall k | 0 <= k < i :: result[k] == ToNoteEntry(dir, rows[k])
    {
      result := result + [ToNoteEntry(dir, rows[i])];
    }
  }

  lemma CountedCount(rows: seq<D.CountedList>, tasks: map<string, TaskRow>, lists: map<string, ListRow>, dir: string)
    requires Lists(rows, set list | list in D.ListsIn(lists, dir) :: D.Counted(tasks, list))
    ensures |rows| == |D.ListsIn(lists, dir)|
    ensures forall c :: c in rows <==> c.list in D.ListsIn(lists, dir) && c == D.Counted(tasks, c.list)
  {
    var counted := map list | list in D.ListsIn(lists, dir) :: D.Counted(tasks, list);
    InjectiveImage(counted);
    DistinctCount(rows);
    forall c ensures c in counted.Values <==> c.list in D.ListsIn(lists, dir) && c == D.Counted(tasks, c.list) {
      if c.list in D.ListsIn(lists, dir) && c == D.Counted(tasks, c.list) { assert counted[c.list] == c; }
    }
    assert Elements(rows) == counted.Values && counted.Keys == D.ListsIn(lists, dir);
  }

  ghost predicate FoldersShown(entries: seq<FileEntry>, files: Files, dirs: set<Path>, dir: string) {
    && (forall name ::
          DirEntry(name, true) in Entries(files, dirs, Components(dir))
          <==> exists e :: e in entries && e.FolderEntry? && e.title == name)
    && (forall e | e in entries && e.FolderEntry? :: e.path == EntryPath(dir, e.title))
  }

  ghost predicate ListsShown(entries: seq<FileEntry>, lists: map<string, ListRow>, tasks: map<string, TaskRow>,
                             dir: string) {
    && (forall list | list in D.ListsIn(lists, dir) :: ToListEntry(dir, D.Counted(tasks, list)) in entries)
    && (forall e | e in entries && e.ListEntry? :: exists list ::
      list in D.ListsIn(lists, dir) && e == ToListEntry(dir, D.Counted(tasks, list)))
  }

  ghost predicate NotesShown(entries: seq<FileEntry>, notes: map<string, NoteRow>, dir: string) {
    && (forall row | row in D.NotesIn(notes, dir) :: ToNoteEntry(dir, row) in entries)
    && (forall e | e in entries && e.NoteEntry? :: exists row ::
      row in D.NotesIn(notes, dir) && e == ToNoteEntry(dir, row))
  }

  /** What `ListFiles` shows of a directory: each subdirectory, each list with its counts, each note,
      and nothing else. */
  ghost predicate IsListing(entries: seq<FileEntry>, files: Files, dirs: set<Path>, notes: map<string, NoteRow>,
                            lists: map<string, ListRow>, tasks: map<string, TaskRow>, dir: string) {
    && FoldersShown(entries, files, dirs, dir) && ListsShown(entries, lists, tasks, dir)
    && NotesShown(entries, notes, dir)
    && |entries| == ListingSize(files, dirs, notes, lists, dir)
  }

  lemma FoldersListed(entries: seq<FileEntry>, folders: seq<DirEntry>, files: Files, dirs: set<Path>, dir: string)
    requires Lists(folders, SubDirs(files, dirs, Components(dir))) && FoldersOf(entries, folders, dir)
    ensures FoldersShown(entries, files, dirs, dir)
  {
    forall name
      ensures DirEntry(name, true) in Entries(files, dirs, Components(dir))
         <==> exists e :: e in entries && e.FolderEntry? && e.title == name
    {
      var d := DirEntry(name, true);
      if d in SubDirs(files, dirs, Components(dir)) {
        var i :| 0 <= i < |folders| && folders[i] == d;
        assert entries[i] in entries;
      }
      if e :| e in entries && e.FolderEntry? && e.title == name {
        var i :| 0 <= i < |entries| && entries[i] == e;
        assert folders[i] in folders;
      }
    }
  }

  lemma ListsListed(entries: seq<FileEntry>, counted: seq<D.CountedList>, lists: map<string, ListRow>,
                    tasks: map<string, TaskRow>, dir: string)
    requires forall c :: c in counted <==> c.list in D.ListsIn(lists, dir) && c == D.Counted(tasks, c.list)
    requires |entries| == |counted| && forall i | 0 <= i < |counted| :: entries[i] == ToListEntry(dir, counted[i])
    ensures ListsShown(entries, lists, tasks, dir)
  {
    forall list | list in D.ListsIn(lists, dir) ensures ToListEntry(dir, D.Counted(tasks, list)) in entries {
      assert D.Counted(tasks, list) in counted;
      var i :| 0 <= i < |counted| && counted[i] == D.Counted(tasks, list);
      assert entries[i] in entries;
    }
    forall e | e in entries
      ensures exists list :: list in D.ListsIn(lists, dir) && e == ToListEntry(dir, D.Counted(tasks, list))
    {
      var i :| 0 <= i < |counted| && entries[i] == e;
      assert counted[i] in counted;
    }
  }

  lemma NotesListed(entries: seq<FileEntry>, rows: seq<NoteRow>, notes: map<string, NoteRow>, dir: string)
    requires Lists(rows, D.NotesIn(notes, dir))
    requires |entries| == |rows| && forall i | 0 <= i < |rows| :: entries[i] == ToNoteEntry(dir, rows[i])
    ensures NotesShown(entries, notes, dir) && |entries| == |D.NotesIn(notes, dir)|
  {
    DistinctCount(rows);
    assert Elements(rows) == D.NotesIn(notes, dir);
    forall row | row in D.NotesIn(notes, dir) ensures ToNoteEntry(dir, row) in entries {
      var i :| 0 <= i < |rows| && rows[i] == row;
      assert entries[i] in entries;
    }
    forall e | e in entries ensures exists row :: row in D.NotesIn(notes, dir) && e == ToNoteEntry(dir, row) {
      var i :| 0 <= i < |rows| && entries[i] == e;
      assert rows[i] in rows;
    }
  }

  /** Entries of other kinds do not matter to what is shown of one kind. */
  lemma KindsApart(fs: seq<FileEntry>, ls: seq<FileEntry>, ns: seq<FileEntry>, files: Files, dirs: set<Path>,
                   notes: map<string, NoteRow>, lists: map<string, ListRow>, tasks: map<string, TaskRow>, dir: string)
    requires (forall e | e in fs :: e.FolderEntry?) && (forall e | e in ls :: e.ListEntry?)
    requires (forall e | e in ns :: e.NoteEntry?)
    requires FoldersShown(fs, files, dirs, dir) && ListsShown(ls, lists, tasks, dir) && NotesShown(ns, notes, dir)
    ensures FoldersShown(fs + ls + ns, files, dirs, dir) && ListsShown(fs + ls + ns, lists, tasks, dir)
    ensures NotesShown(fs + ls + ns, notes, dir)
  {
    forall e ensures e in fs + ls + ns <==> e in fs || e in ls || e in ns {}
  }

  /** Folders before task lists before notes, and the folders by name. */
  ghost predicate InOrder(entries: seq<FileEntry>) {
    forall i, j | 0 <= i < j < |entries| ::
      && (entries[j].FolderEntry? ==> entries[i].FolderEntry?)
      && (entries[j].ListEntry? ==> !entries[i].NoteEntry?)
      && (entries[j].FolderEntry? ==> Less(entries[i].title, entries[j].title))
  }

  lemma GroupsInOrder(fs: seq<FileEntry>, ls: seq<FileEntry>, ns: seq<FileEntry>, folders: seq<DirEntry>, dir: string)
    requires FoldersOf(fs, folders, dir) && Sorted(folders, NameLe) && Distinct(folders)
    requires (forall d | d in folders :: d.isDir)
    requires (forall e | e in ls :: e.ListEntry?) && (forall e | e in ns :: e.NoteEntry?)
    ensures InOrder(fs + ls + ns)
  {
    var entries := fs + ls + ns;
    forall i | |fs| <= i < |entries| ensures if i < |fs + ls| then entries[i].ListEntry? else entries[i].NoteEntry? {
      assert i < |fs + ls| ==> entries[i] in ls;
      assert i >= |fs + ls| ==> entries[i] in ns;
    }
    forall i, j | 0 <= i < j < |fs| ensures Less(fs[i].title, fs[j].title) {
      assert folders[i] in folders && folders[j] in folders;
      assert folders[i] == DirEntry(fs[i].title, true) && folders[j] == DirEntry(fs[j].title, true);
      LessTotal(fs[i].title, fs[j].title);
      assert NameLe(folders[i], folders[j]);
    }
  }

  lemma OrderedGroups(dirEntries: seq<DirEntry>, fs: seq<FileEntry>, ls: seq<FileEntry>, ns: seq<FileEntry>,
                      dir: string)
    requires FoldersOf(fs, Filter(dirEntries, IsFolder()), dir) && Sorted(dirEntries, NameLe) && Distinct(dirEntries)
    requires (forall e | e in ls :: e.ListEntry?) && (forall e | e in ns :: e.NoteEntry?)
    ensures InOrder(fs + ls + ns)
  {
    FilterIn(dirEntries, IsFolder());
    FilterOrdered(dirEntries, IsFolder(), NameLe);
    GroupsInOrder(fs, ls, ns, Filter(dirEntries, IsFolder()), dir);
  }

  // ---- The answer, field by field ----

  lemma LastCharNotSlash(dir: string)
    requires Accepted(dir) && dir != ""
    ensures dir[|dir| - 1] != '/'
  {
    if dir != "." && dir[|dir| - 1] == '/' {
      var front, cs := dir[..|dir| - 1], Split(dir);
      assert dir == front + "/" + "";
      SplitAtSlash(front, "");
      assert !GoodComponents(cs) by { assert !GoodComponent(cs[|cs| - 1]); }
      AcceptedGood(dir);
    }
  }

  /** The path of an entry: the directory, a slash, and the name; in the root just the name. */
  lemma EntryPathText(dir: string, name: string)
    requires Accepted(dir)
    ensures EntryPath(dir, name) == (if dir == "" then "" else dir + "/") + name
  {
    if dir != "" { LastCharNotSlash(dir); }
  }

  /** The list entries are those of the directory's task lists, with the numbers of main tasks and of done main
      tasks in the stored tree. */
  lemma ListsExactly(entries: seq<FileEntry>, lists: map<string, ListRow>, tasks: map<string, TaskRow>,
                     trees: L.Trees, dir: string)
    requires Accepted(dir) && L.Holds(lists, tasks, trees) && ListsShown(entries, lists, tasks, dir)
    ensures forall e: FileEntry | e.ListEntry? :: e in entries <==>
      && e.id in lists && lists[e.id].parentDir == dir && e.title == lists[e.id].title
      && e.path == (if dir == "" then "" else dir + "/") + e.title && e.updatedAt == lists[e.id].updatedAt
      && e.total == |trees[e.id]| && e.done == |Filter(trees[e.id], L.DoneTask())|
  {
    forall e: FileEntry | e.ListEntry?
      ensures e in entries <==>
        e.id in lists && lists[e.id].parentDir == dir && e == ToListEntry(dir, D.Counted(tasks, lists[e.id]))
    {
      if e in entries {
        var list :| list in D.ListsIn(lists, dir) && e == ToListEntry(dir, D.Counted(tasks, list));
        assert lists[e.id] == list;
      }
      if e.id in lists && lists[e.id].parentDir == dir { assert lists[e.id] in D.ListsIn(lists, dir); }
    }
    forall l | l in lists
      ensures var c := D.Counted(tasks, lists[l]);
        c.list == lists[l] && c.total == |trees[l]| && c.done == |Filter(trees[l], L.DoneTask())|
      ensures EntryPath(dir, lists[l].title) == (if dir == "" then "" else dir + "/") + lists[l].title
    {
      L.CountsAgree(lists, tasks, trees, l);
      EntryPathText(dir, lists[l].title);
    }
  }

  /** The note entries are those of the directory's notes, with their file's path and their preview. */
  lemma NotesExactly(entries: seq<FileEntry>, notes: map<string, NoteRow>, dir: string)
    requires Accepted(dir) && KeyedById(notes) && NotesShown(entries, notes, dir)
    ensures forall e: FileEntry | e.NoteEntry? :: e in entries <==>
      && e.id in notes && notes[e.id].parentDir == dir && e.title == notes[e.id].title
      && e.path == (if dir == "" then "" else dir + "/") + (e.title + "_" + e.id + ".md")
      && e.updatedAt == notes[e.id].updatedAt && e.preview == notes[e.id].preview
  {
    forall e: FileEntry | e.NoteEntry?
      ensures e in entries <==> e.id in notes && notes[e.id].parentDir == dir && e == ToNoteEntry(dir, notes[e.id])
    {
      if e in entries {
        var row :| row in D.NotesIn(notes, dir) && e == ToNoteEntry(dir, row);
        assert notes[e.id] == row;
      }
      if e.id in notes && notes[e.id].parentDir == dir { assert notes[e.id] in D.NotesIn(notes, dir); }
    }
    forall id | id in notes
      ensures var file := notes[id].title + "_" + id + ".md";
        EntryPath(dir, NoteFile(notes[id].title, id)) == (if dir == "" then "" else dir + "/") + file
    {
      EntryPathText(dir, NoteFile(notes[id].title, id));
    }
  }

  /** The folder entries are those of the subdirectories. */
  lemma FoldersExactly(entries: seq<FileEntry>, files: Files, dirs: set<Path>, dir: string)
    requires Accepted(dir) && FoldersShown(entries, files, dirs, dir)
    ensures forall name ::
      Components(dir) + [name] in dirs <==> exists e :: e in entries && e.FolderEntry? && e.title == name
    ensures forall e | e in entries && e.FolderEntry? :: e.path == (if dir == "" then "" else dir + "/") + e.title
  {
    EntriesIff(files, dirs, Components(dir));
    forall e | e in entries && e.FolderEntry? ensures e.path == (if dir == "" then "" else dir + "/") + e.title {
      EntryPathText(dir, e.title);
    }
  }

  /** The three parts make the listing, in order. */
  lemma Assembled(dirEntries: seq<DirEntry>, fs: seq<FileEntry>, counted: seq<D.CountedList>, ls: seq<FileEntry>,
                  rows: seq<NoteRow>, ns: seq<FileEntry>, files: Files, dirs: set<Path>, notes: map<string, NoteRow>,
                  lists: map<string, ListRow>, tasks: map<string, TaskRow>, dir: string)
    requires Lists(dirEntries, Entries(files, dirs, Components(dir))) && Sorted(dirEntries, NameLe)
    requires FoldersOf(fs, Filter(dirEntries, IsFolder()), dir)
    requires Lists(counted, set list | list in D.ListsIn(lists, dir) :: D.Counted(tasks, list))
    requires |ls| == |counted| && forall i | 0 <= i < |counted| :: ls[i] == ToListEntry(dir, counted[i])
    requires Lists(rows, D.NotesIn(notes, dir))
    requires |ns| == |rows| && forall i | 0 <= i < |rows| :: ns[i] == ToNoteEntry(dir, rows[i])
    ensures IsListing(fs + ls + ns, files, dirs, notes, lists, tasks, dir) && InOrder(fs + ls + ns)
  {
    FolderCount(dirEntries, files, dirs, Components(dir));
    FoldersListed(fs, Filter(dirEntries, IsFolder()), files, dirs, dir);
    CountedCount(counted, tasks, lists, dir);
    ListsListed(ls, counted, lists, tasks, dir);
    NotesListed(ns, rows, notes, dir);
    KindsApart(fs, ls, ns, files, dirs, notes, lists, tasks, dir);
    OrderedGroups(dirEntries, fs, ls, ns, dir);
  }

  datatype ListFilesReply = Files(entries: seq<FileEntry>) | InvalidListing | NoListingDir | NotListedFiles

  /** `ListFiles`: every folder, then every task list, then every note. */
  method ListFiles(disk: Disk, db: D.Database, requestParentDir: string, ghost trees: L.Trees)
    returns (r: ListFilesReply)
    requires disk.Valid()
    ensures r.Files? ==> IsListing(r.entries, disk.files, disk.dirs, db.notes, db.lists, db.tasks, requestParentDir)
    ensures r.Files? ==> InOrder(r.entries)
    ensures r.Files? && !disk.faulty && !db.faulty ==>
      forall e | e in r.entries :: CountOk(e, disk.files, disk.dirs, db.notes, db.lists, requestParentDir)
    ensures !disk.faulty && !db.faulty ==>
      (r.Files? <==> Accepted(requestParentDir) && Components(requestParentDir) in disk.dirs)
    ensures r.Files? && L.Holds(db.lists, db.tasks, trees) ==> forall e: FileEntry | e.ListEntry? ::
      e in r.entries <==>
        && e.id in db.lists && db.lists[e.id].parentDir == requestParentDir && e.title == db.lists[e.id].title
        && e.path == (if requestParentDir == "" then "" else requestParentDir + "/") + e.title
        && e.updatedAt == db.lists[e.id].updatedAt
        && e.total == |trees[e.id]| && e.done == |Filter(trees[e.id], L.DoneTask())|
    ensures r.Files? && KeyedById(db.notes) ==> forall e: FileEntry | e.NoteEntry? ::
      e in r.entries <==>
        && e.id in db.notes && db.notes[e.id].parentDir == requestParentDir && e.title == db.notes[e.id].title
        && e.path == (if requestParentDir == "" then "" else requestParentDir + "/") + (e.title + "_" + e.id + ".md")
        && e.updatedAt == db.notes[e.id].updatedAt && e.preview == db.notes[e.id].preview
    ensures r.Files? ==> forall name ::
      Components(requestParentDir) + [name] in disk.dirs
      <==> exists e :: e in r.entries && e.FolderEntry? && e.title == name
    ensures r.Files? ==> forall e | e in r.entries && e.FolderEntry? ::
      e.path == (if requestParentDir == "" then "" else requestParentDir + "/") + e.title
    ensures r.InvalidListing? <==> !Accepted(requestParentDir)
    ensures !disk.faulty ==>
      (r.NoListingDir? <==> Accepted(requestParentDir) && Components(requestParentDir) !in disk.dirs)
    ensures !disk.faulty && !db.faulty ==> !r.NotListedFiles?
  {
    if !Accepted(requestParentDir) { return InvalidListing; }
    var parentDir := Components(requestParentDir);
    var isDir := RequireDir(disk, parentDir);
    if !isDir { return NoListingDir; }
    var result := ReadListing(disk, db, parentDir, requestParentDir);
    if result.None? { return NotListedFiles; }
    FoldersExactly(result.value, disk.files, disk.dirs, requestParentDir);
    if KeyedById(db.notes) { NotesExactly(result.value, db.notes, requestParentDir); }
    if L.Holds(db.lists, db.tasks, trees) { ListsExactly(result.value, db.lists, db.tasks, trees, requestParentDir); }
    r := Files(result.value);
  }

  /** The three reads of `ListFiles`, and the entries they make. */
  method ReadListing(disk: Disk, db: D.Database, parentDir: Path, requestParentDir: string)
    returns (r: Option<seq<FileEntry>>)
    requires parentDir == Components(requestParentDir)
    ensures r.Some? ==>
      IsListing(r.value, disk.files, disk.dirs, db.notes, db.lists, db.tasks, requestParentDir) && InOrder(r.value)
    ensures r.Some? && !disk.faulty && !db.faulty ==>
      forall e | e in r.value :: CountOk(e, disk.files, disk.dirs, db.notes, db.lists, requestParentDir)
    ensures !disk.faulty && !db.faulty ==> (r.Some? <==> parentDir in disk.dirs)
  {
    var dirEntries := disk.ReadDir(parentDir);
    if dirEntries.None? { return None; }
    var folders := FolderEntries(disk, db, dirEntries.value, parentDir, requestParentDir);
    var taskLists := db.ListTaskListsWithCounts(requestParentDir);
    if !taskLists.Done? { return None; }
    var listEntries := ListEntries(taskLists.value, requestParentDir);
    var noteRows := db.ListNotes(requestParentDir);
    if !noteRows.Done? { return None; }
    var noteEntries := NoteEntries(noteRows.value, requestParentDir);
    Assembled(dirEntries.value, folders, taskLists.value, listEntries, noteRows.value, noteEntries, disk.files,
        disk.dirs, db.notes, db.lists, db.tasks, requestParentDir);
    r := Some(folders + listEntries + noteEntries);
  }

  // ---- Child counts against listings ----

  lemma DotNotAccepted(name: string)
    ensures !Accepted("./" + name)
  {
    var p := "./" + name;
    SplitSingle(".");
    SplitAtSlash(".", name);
    assert "." + "/" + name == p && Split(p)[0] == ".";
    assert !GoodComponents(Split(p)) by { assert !GoodComponent(Split(p)[0]); }
    if Accepted(p) { AcceptedGood(p); }
  }

  ghost predicate DirsAccepted(notes: map<string, NoteRow>, lists: map<string, ListRow>) {
    (forall id | id in notes :: Accepted(notes[id].parentDir))
      && (forall id | id in lists :: Accepted(lists[id].parentDir))
  }

  /** The path of a folder entry is the folder's own path, except below ".", where it is one that no row can have. */
  lemma EntryPathNames(dir: string, name: string)
    requires Accepted(dir) && GoodComponent(name)
    ensures var child := Join(Components(dir) + [name]);
      && Components(child) == Components(dir) + [name]
      && (if dir == "." then !Accepted(EntryPath(dir, name)) else EntryPath(dir, name) == child)
  {
    ComponentsGood(dir);
    JoinGood(Components(dir) + [name]);
    if dir == "." {
      DotNotAccepted(name);
      assert "." + "/" + name == "./" + name;
    } else if dir == "" {
      assert [] + [name] == [name];
    } else {
      JoinConcat(Components(dir), [name]);
      LastCharNotSlash(dir);
    }
  }

  /** A folder's child count is the length of listing that folder, except when the listing was asked
      for under the name "." and rows are stored directly in the folder. */
  lemma ChildCountIff(e: FileEntry, files: Files, dirs: set<Path>, notes: map<string, NoteRow>,
                      lists: map<string, ListRow>, dir: string)
    requires e.FolderEntry? && e.path == EntryPath(dir, e.title) && CountOk(e, files, dirs, notes, lists, dir)
    requires Accepted(dir) && GoodComponent(e.title) && DirsAccepted(notes, lists)
    ensures var child := Join(Components(dir) + [e.title]);
      e.childCount == ListingSize(files, dirs, notes, lists, child) <==>
      dir != "." || RowCount(notes, lists, child) == 0
  {
    EntryPathNames(dir, e.title);
    if dir == "." {
      assert D.NotesIn(notes, e.path) == {} && D.ListsIn(lists, e.path) == {};
    }
  }
}
