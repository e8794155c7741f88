/** The folder handlers: create, rename and delete, over the disk and all three tables. */
module Folders {
  import opened Strings
  import opened Rows
  import opened Paths
  import opened DirRename
  import opened Disk
  import opened Notes
  import opened FolderStore
  import opened TaskStore
  import D = Database

  // ---- Create (file/create_folder.go) ----

  datatype CreateFolderReply =
    | FolderCreated(path: string)
    | InvalidCreateFolder
    | NoParent
    | FolderTaken
    | FolderNotMade

  method CreateFolder(disk: Disk, name: string, parentDir: string) returns (r: CreateFolderReply)
    requires disk.Valid()
    modifies disk`dirs
    ensures disk.Valid()
    ensures r.FolderCreated? ==>
      r.path == Join(Components(parentDir) + [name]) + "/" && Accepted(parentDir) && ValidName(name)
    ensures disk.dirs == if r.FolderCreated? then old(disk.dirs) + {Components(parentDir) + [name]} else old(disk.dirs)
    ensures !disk.faulty ==> (r.FolderCreated? <==>
      var dir := Components(parentDir) + [name];
      Accepted(parentDir) && ValidName(name) && Components(parentDir) in old(disk.dirs) && dir !in disk.files
        && dir !in old(disk.dirs))
    ensures r.InvalidCreateFolder? <==> !(Accepted(parentDir) && ValidName(name))
    ensures !disk.faulty ==>
      (r.NoParent? <==> Accepted(parentDir) && ValidName(name) && Components(parentDir) !in old(disk.dirs))
    ensures !disk.faulty ==> (r.FolderTaken? <==>
      && Accepted(parentDir) && ValidName(name) && Components(parentDir) in old(disk.dirs)
      && var dir := Components(parentDir) + [name]; dir in disk.files || dir in old(disk.dirs))
    ensures r.FolderTaken? ==>
      var dir := Components(parentDir) + [name]; dir in disk.files || dir in old(disk.dirs)
    ensures !disk.faulty ==> !r.FolderNotMade?
  {
    if !ValidName(name) || !Accepted(parentDir) { return InvalidCreateFolder; }
    var isDir := RequireDir(disk, Components(parentDir));
    if !isDir { return NoParent; }
    var newDir := Components(parentDir) + [name];
    assert Parent(newDir) == Components(parentDir);
    var st := disk.Stat(newDir);
    if st.IsFile? || st.IsDir? { return FolderTaken; }
    var made := disk.Mkdir(newDir);
    if !made { return FolderNotMade; }
    r := FolderCreated(Join(newDir) + "/");
  }

  // ---- Rename (file/update_folder.go) ----

  datatype UpdateFolderReply =
    | FolderUpdated(path: string)
    | InvalidUpdateFolder
    | NoFolder
    | NameTaken
    | FolderNotMoved
    | RowsNotMoved(rolledBack: bool)

  /** What `UpdateFolder` accepts and finds in place. */
  ghost predicate CanRename(files: Files, dirs: set<Path>, folder: string, newName: string) {
    && ValidName(newName) && FolderPath(folder)
    && CanMove(files, dirs, Components(folder), Components(Sibling(folder, newName)))
  }

  lemma MovedAway(files: Files, dirs: set<Path>, a: Path, b: Path)
    requires CanMove(files, dirs, a, b)
    ensures b in MovedDirs(dirs, a, b)
    ensures a == b || (a !in MovedFiles(files, a, b) && a !in MovedDirs(dirs, a, b))
  {
    assert Moved(a, b, a) == b;
    if a != b {
      forall p | p in files || p in dirs ensures Moved(a, b, p) != a {}
    }
  }

  /** Rename on disk, rewrite the rows, rename back if that fails. */
  method MoveFolder(disk: Disk, db: D.Database, from: string, to: string, a: Path, b: Path)
    returns (r: UpdateFolderReply)
    requires disk.Valid() && Siblings(a, b)
    modifies disk`files, disk`dirs, disk`history, db`notes, db`lists
    ensures disk.Valid() && (r.FolderUpdated? || r.FolderNotMoved? || r.RowsNotMoved?)
    ensures r.FolderUpdated? || r.RowsNotMoved? ==> CanMove(old(disk.files), old(disk.dirs), a, b)
    ensures r.FolderUpdated? ==> r.path == to + "/"
    ensures r.FolderUpdated? ==>
      db.notes == D.RenamedNotes(old(db.notes), from, to) && db.lists == D.RenamedLists(old(db.lists), from, to)
    ensures !r.FolderUpdated? ==> db.notes == old(db.notes) && db.lists == old(db.lists)
    ensures r.FolderUpdated? || (r.RowsNotMoved? && !r.rolledBack) ==>
      disk.files == MovedFiles(old(disk.files), a, b) && disk.dirs == MovedDirs(old(disk.dirs), a, b)
    ensures r.FolderNotMoved? || (r.RowsNotMoved? && r.rolledBack) ==>
      disk.files == old(disk.files) && disk.dirs == old(disk.dirs)
    ensures !disk.faulty ==> (r.RowsNotMoved? ==> r.rolledBack)
    ensures !disk.faulty && !db.faulty ==> (r.FolderUpdated? <==> CanMove(old(disk.files), old(disk.dirs), a, b))
    ensures !disk.faulty ==> (r.FolderNotMoved? <==> !CanMove(old(disk.files), old(disk.dirs), a, b))
    ensures !db.faulty ==> !r.RowsNotMoved?
  {
    ghost var files0, dirs0 := disk.files, disk.dirs;
    var moved := disk.RenameDir(a, b);
    if !moved { return FolderNotMoved; }
    MovedAway(files0, dirs0, a, b);
    MovedFilesBack(files0, dirs0, a, b);
    MovedDirsBack(files0, dirs0, a, b);
    var renamed := db.RenameParentDir(from, to);
    if renamed { return FolderUpdated(to + "/"); }
    var back := disk.RenameDir(b, a);
    r := RowsNotMoved(back);
  }

  /** `UpdateFolder` once the names are accepted: an existing sibling is refused, unless it is the folder itself. */
  method RenameSibling(disk: Disk, db: D.Database, from: string, to: string, oldPath: Path, newName: string)
    returns (r: UpdateFolderReply)
    requires disk.Valid() && oldPath != []
    modifies disk`files, disk`dirs, disk`history, db`notes, db`lists
    ensures disk.Valid() && !r.InvalidUpdateFolder?
    ensures r.FolderUpdated? || r.RowsNotMoved? ==>
      CanMove(old(disk.files), old(disk.dirs), oldPath, Parent(oldPath) + [newName])
    ensures r.FolderUpdated? ==> r.path == to + "/"
    ensures r.FolderUpdated? ==>
      db.notes == D.RenamedNotes(old(db.notes), from, to) && db.lists == D.RenamedLists(old(db.lists), from, to)
    ensures !r.FolderUpdated? ==> db.notes == old(db.notes) && db.lists == old(db.lists)
    ensures r.FolderUpdated? || (r.RowsNotMoved? && !r.rolledBack) ==> var b := Parent(oldPath) + [newName];
      disk.files == MovedFiles(old(disk.files), oldPath, b) && disk.dirs == MovedDirs(old(disk.dirs), oldPath, b)
    ensures !r.FolderUpdated? && (r.RowsNotMoved? ==> r.rolledBack) ==>
      disk.files == old(disk.files) && disk.dirs == old(disk.dirs)
    ensures !disk.faulty ==> (r.RowsNotMoved? ==> r.rolledBack)
    ensures !disk.faulty && !db.faulty ==>
      (r.FolderUpdated? <==> CanMove(old(disk.files), old(disk.dirs), oldPath, Parent(oldPath) + [newName]))
    ensures !disk.faulty ==> (r.NoFolder? <==> oldPath !in old(disk.dirs))
    ensures r.NameTaken? ==>
      var b := Parent(oldPath) + [newName]; b != oldPath && (b in old(disk.files) || b in old(disk.dirs))
    ensures !disk.faulty ==> (r.NameTaken? <==>
      && oldPath in old(disk.dirs)
      && var b := Parent(oldPath) + [newName]; b != oldPath && (b in old(disk.files) || b in old(disk.dirs)))
    ensures (!disk.faulty ==> !r.FolderNotMoved?) && (!db.faulty ==> !r.RowsNotMoved?)
  {
    var newPath := Parent(oldPath) + [newName];
    var isDir := RequireDir(disk, oldPath);
    if !isDir { return NoFolder; }
    if newName != Last(oldPath) {
      assert newPath != oldPath;
      var st := disk.Stat(newPath);
      if st.IsFile? || st.IsDir? { return NameTaken; }
    } else {
      assert newPath == oldPath;
    }
    r := MoveFolder(disk, db, from, to, oldPath, newPath);
  }

  /** `UpdateFolder`: the directory first, then the rows; if the rows fail, the directory moves back.
      A failure whose rollback succeeds changes nothing. */
  method UpdateFolder(disk: Disk, db: D.Database, folder: string, newName: string) returns (r: UpdateFolderReply)
    requires disk.Valid()
    modifies disk`files, disk`dirs, disk`history, db`notes, db`lists
    ensures disk.Valid()
    ensures r.FolderUpdated? || r.RowsNotMoved? ==> CanRename(old(disk.files), old(disk.dirs), folder, newName)
    ensures r.FolderUpdated? ==> r.path == Sibling(folder, newName) + "/"
    ensures r.FolderUpdated? ==> var to := Sibling(folder, newName);
      db.notes == D.RenamedNotes(old(db.notes), folder, to) && db.lists == D.RenamedLists(old(db.lists), folder, to)
    ensures !r.FolderUpdated? ==> db.notes == old(db.notes) && db.lists == old(db.lists)
    ensures r.FolderUpdated? || (r.RowsNotMoved? && !r.rolledBack) ==>
      var a, b := Components(folder), Components(Sibling(folder, newName));
      disk.files == MovedFiles(old(disk.files), a, b) && disk.dirs == MovedDirs(old(disk.dirs), a, b)
    ensures !r.FolderUpdated? && (r.RowsNotMoved? ==> r.rolledBack) ==>
      disk.files == old(disk.files) && disk.dirs == old(disk.dirs)
    ensures !disk.faulty ==> (r.RowsNotMoved? ==> r.rolledBack)
    ensures !disk.faulty && !db.faulty ==>
      (r.FolderUpdated? <==> CanRename(old(disk.files), old(disk.dirs), folder, newName))
    ensures db.notes.Keys == old(db.notes).Keys && db.lists.Keys == old(db.lists).Keys
    ensures r.FolderUpdated? ==> forall id | id in db.notes ::
      var dir := old(db.notes)[id].parentDir;
      db.notes[id] == old(db.notes)[id].(parentDir := TwoPass(folder, Sibling(folder, newName), dir))
    ensures r.FolderUpdated? ==> forall id | id in db.lists ::
      var dir := old(db.lists)[id].parentDir;
      db.lists[id] == old(db.lists)[id].(parentDir := TwoPass(folder, Sibling(folder, newName), dir))
    ensures r.InvalidUpdateFolder? <==> !(ValidName(newName) && Accepted(folder) && Components(folder) != [])
    ensures !disk.faulty ==> (r.NoFolder? <==> !r.InvalidUpdateFolder? && Components(folder) !in old(disk.dirs))
    ensures r.NameTaken? ==> var a := Components(folder); var b := a[..|a| - 1] + [newName];
      b != a && (b in old(disk.files) || b in old(disk.dirs))
    ensures !disk.faulty ==> (r.NameTaken? <==>
      && !r.InvalidUpdateFolder? && Components(folder) in old(disk.dirs)
      && var a := Components(folder); var b := a[..|a| - 1] + [newName];
      b != a && (b in old(disk.files) || b in old(disk.dirs)))
    ensures (!disk.faulty ==> !r.FolderNotMoved?) && (!db.faulty ==> !r.RowsNotMoved?)
  {
    if !ValidName(newName) || folder == "" || !FolderPath(folder) { return InvalidUpdateFolder; }
    SiblingPaths(folder, newName);
    D.RenamedRows(db.notes, db.lists, folder, Sibling(folder, newName));
    r := RenameSibling(disk, db, folder, Sibling(folder, newName), Components(folder), newName);
  }

  // ---- Delete (file/delete_folder.go) ----

  datatype DeleteFolderReply = FolderDeleted | InvalidDeleteFolder | NoSuchFolder | RowsNotDeleted | FolderNotRemoved

  /** `DeleteFolder`: the rows first, then the directory, so that under every fault each row that is
      left has its file. */
  method DeleteFolder(disk: Disk, db: D.Database, folder: string) returns (r: DeleteFolderReply)
    requires disk.Valid()
    modifies disk`files, disk`dirs, disk`history, db
    ensures disk.Valid()
    ensures r.FolderDeleted? || r.FolderNotRemoved? ==> FolderPath(folder) && Components(folder) in old(disk.dirs)
    ensures r.FolderDeleted? || r.FolderNotRemoved? ==>
      db.notes == D.NotesOutside(old(db.notes), folder) && db.lists == D.ListsOutside(old(db.lists), folder)
        && db.tasks == Cascade(db.lists.Keys, old(db.tasks))
    ensures !r.FolderDeleted? && !r.FolderNotRemoved? ==>
      db.notes == old(db.notes) && db.lists == old(db.lists) && db.tasks == old(db.tasks)
        && disk.files == old(disk.files) && disk.dirs == old(disk.dirs)
    ensures FilesOutside(disk.files, Components(folder)) == FilesOutside(old(disk.files), Components(folder))
    ensures r.FolderDeleted? ==> disk.files == FilesOutside(old(disk.files), Components(folder))
    ensures r.FolderDeleted? ==> disk.dirs == set d | d in old(disk.dirs) && !(Components(folder) <= d)
    ensures RowsOk(old(db.notes)) && EveryRowHasFile(old(db.notes), old(disk.files)) ==>
      EveryRowHasFile(db.notes, disk.files)
    ensures !disk.faulty && !db.faulty ==>
      (r.FolderDeleted? <==> FolderPath(folder) && Components(folder) in old(disk.dirs))
    ensures r.FolderDeleted? ==>
      (forall p :: p in disk.files <==> p in old(disk.files) && !(Components(folder) <= p))
        && forall p | p in disk.files :: disk.files[p] == old(disk.files)[p]
    ensures r.FolderDeleted? || r.FolderNotRemoved? ==>
      && (forall id :: id in db.notes <==> id in old(db.notes) && !D.DirSelected(folder, old(db.notes)[id].parentDir))
      && (forall id :: id in db.lists <==> id in old(db.lists) && !D.DirSelected(folder, old(db.lists)[id].parentDir))
      && (forall id | id in db.notes :: db.notes[id] == old(db.notes)[id])
      && (forall id | id in db.lists :: db.lists[id] == old(db.lists)[id])
    ensures r.InvalidDeleteFolder? <==> !(Accepted(folder) && Components(folder) != [])
    ensures !disk.faulty ==> (r.NoSuchFolder? <==> !r.InvalidDeleteFolder? && Components(folder) !in old(disk.dirs))
    ensures (!db.faulty ==> !r.RowsNotDeleted?) && (!disk.faulty ==> !r.FolderNotRemoved?)
  {
    if folder == "" || !FolderPath(folder) { return InvalidDeleteFolder; }
    var target := Components(folder);
    var isDir := RequireDir(disk, target);
    if !isDir { return NoSuchFolder; }
    D.OutsideRows(db.notes, db.lists, folder);
    var deleted := db.DeleteByParentDir(folder);
    if !deleted { return RowsNotDeleted; }
    assert target != [];
    var removed := disk.RemoveAll(target);
    if RowsOk(old(db.notes)) && EveryRowHasFile(old(db.notes), old(disk.files)) {
      DeleteKeepsFiles(old(db.notes), old(disk.files), old(disk.dirs), folder, disk.files);
    }
    r := if removed then FolderDeleted else FolderNotRemoved;
  }
}
