/** Whole runs of the service on a faulty disk and a faulty database: what holds whatever fails, and the
    answers after which it need not hold. */
module FaultyRuns {
  import opened Strings
  import opened Rows
  import opened Paths
  import opened Like
  import opened DirRename
  import opened NotePaths
  import opened Disk
  import opened TaskUpdate
  import opened TaskStore
  import N = Notes
  import opened NoteStore
  import opened FolderStore
  import F = Folders
  import L = TaskLists
  import D = Database
  import opened ServiceModel
  import opened Service

  /** Rows written by handlers, each with its file. */
  ghost predicate RowsKept(notes: map<string, NoteRow>, files: Files) {
    N.RowsOk(notes) && N.EveryRowHasFile(notes, files)
  }

  /** What holds between requests, whatever has failed: a tree on disk, every row with its file, and the
      task tables with exactly these trees. */
  ghost predicate Sound(s: State) {
    IsTree(s.files, s.dirs) && RowsKept(s.notes, s.files) && L.Holds(s.lists, s.tasks, s.trees)
  }

  /** The answers that can cost a row its file. */
  datatype Answer =
    | NoteAnswer(update: N.UpdateReply)
    | NoteGone(delete: N.DeleteReply)
    | FolderAnswer(rename: F.UpdateFolderReply)
    | Harmless

  /** A changed title with a file left under one of the two names, a row that outlives its file, a directory
      with notes that could not be moved back, or a rename LIKE does not get right. */
  predicate Loses(notes: map<string, NoteRow>, q: Request, a: Answer) {
    match a
    case NoteAnswer(r) => q.NoteUpdate? && q.id in notes && q.title != notes[q.id].title && N.LeavesFileAway(r)
    case NoteGone(r) => r.RowNotDeleted?
    case FolderAnswer(r) =>
      && q.FolderRename?
      && var to := Sibling(q.folder, q.newName);
      || (r.RowsNotMoved? && !r.rolledBack && q.folder != to
           && exists id :: id in notes && Under(q.folder, notes[id].parentDir))
      || (r.FolderUpdated? && !AllExact(notes, q.folder, to))
    case Harmless => false
  }

  // ---- Notes ----

  lemma CreateKeeps(notes0: map<string, NoteRow>, files0: Files, row: NoteRow, notes: map<string, NoteRow>,
                    files: Files)
    requires RowsKept(notes0, files0) && N.RowsOk(notes) && N.SameElsewhere(notes0, row.id, files, files0)
    requires row.id !in notes0
    requires notes == notes0 || (notes == notes0[row.id := row] && N.KeyOf(row) in files)
    ensures RowsKept(notes, files)
  {
    forall id | id in notes ensures N.KeyOf(notes[id]) in files {
      if id in notes0 { assert notes[id] == notes0[id] && N.KeyOf(notes0[id]) in files0; }
    }
  }

  lemma UpdateKeeps(notes0: map<string, NoteRow>, files0: Files, row: NoteRow, notes: map<string, NoteRow>,
                    files: Files)
    requires RowsKept(notes0, files0) && N.SameElsewhere(notes0, row.id, files, files0) && row.id in notes0
    requires notes == notes0 || (notes == notes0[row.id := row] && N.RowOk(row))
    ensures N.EveryRowHasFile(notes, files) <==> N.KeyOf(notes[row.id]) in files
    ensures N.RowsOk(notes)
  {
    forall id | id in notes && id != row.id ensures N.KeyOf(notes[id]) in files {
      assert notes[id] == notes0[id] && N.KeyOf(notes0[id]) in files0;
    }
  }

  method CreateAnyhow(disk: Disk, db: D.Database, q: Request, now: int, ghost trees: L.Trees)
    requires Sound(Now(disk, db, trees)) && q.NoteCreate? && IsUuidV4(q.id) && q.id !in db.notes
    modifies disk`files, disk`history, db`notes
    ensures Sound(Now(disk, db, trees))
    ensures db.notes.Keys <= old(db.notes).Keys + {q.id}
  {
    ghost var notes0, files0 := db.notes, disk.files;
    var r := N.CreateNote(disk, db, q.parentDir, q.title, q.content, q.id, now);
    CreateKeeps(notes0, files0, NoteRow(q.id, q.title, q.parentDir, N.Preview(q.content), now, now), db.notes,
        disk.files);
  }

  method UpdateAnyhow(disk: Disk, db: D.Database, q: Request, now: int, ghost trees: L.Trees) returns (a: Answer)
    requires Sound(Now(disk, db, trees)) && q.NoteUpdate?
    modifies disk`files, disk`history, db`notes
    ensures disk.Valid() && N.RowsOk(db.notes) && db.notes.Keys == old(db.notes).Keys
    ensures N.EveryRowHasFile(db.notes, disk.files) <==> !Loses(old(db.notes), q, a)
  {
    ghost var notes0, files0 := db.notes, disk.files;
    if q.id in db.notes { FileNotDir(db.notes, disk.files, disk.dirs, q.id); }
    var r := N.UpdateNote(disk, db, q.id, q.title, q.content, now);
    a := NoteAnswer(r);
    if q.id in notes0 {
      UpdateKeeps(notes0, files0, db.notes[q.id], db.notes, disk.files);
    }
  }

  lemma FileNotDir(notes: map<string, NoteRow>, files: Files, dirs: set<Path>, id: string)
    requires N.EveryRowHasFile(notes, files) && IsTree(files, dirs) && id in notes
    ensures N.KeyOf(notes[id]) in files && N.KeyOf(notes[id]) !in dirs
  {}

  method DeleteAnyhow(disk: Disk, db: D.Database, q: Request, ghost trees: L.Trees) returns (a: Answer)
    requires Sound(Now(disk, db, trees)) && q.NoteDelete?
    modifies disk`files, disk`history, db`notes
    ensures disk.Valid() && N.RowsOk(db.notes) && db.notes.Keys <= old(db.notes).Keys
    ensures N.EveryRowHasFile(db.notes, disk.files) <==> !Loses(old(db.notes), q, a)
  {
    if q.id in db.notes { FileNotDir(db.notes, disk.files, disk.dirs, q.id); }
    var r := N.DeleteNote(disk, db, q.id);
    a := NoteGone(r);
  }

  // ---- Folders ----

  lemma RenameKeeps(notes: map<string, NoteRow>, files: Files, dirs: set<Path>, folder: string, newName: string)
    requires RowsKept(notes, files) && F.CanRename(files, dirs, folder, newName)
    requires AllExact(notes, folder, Sibling(folder, newName))
    ensures var to := Sibling(folder, newName);
      RowsKept(D.RenamedNotes(notes, folder, to), MovedFiles(files, Components(folder), Components(to)))
  {
    NameGood(newName);
    RenamedRowsOk(notes, folder, newName);
    RenameKeepsFiles(notes, files, dirs, folder, newName);
  }

  lemma RenameKeepsFiles(notes: map<string, NoteRow>, files: Files, dirs: set<Path>, folder: string, newName: string)
    requires RowsKept(notes, files) && FolderPath(folder) && GoodComponent(newName)
    requires CanMove(files, dirs, Components(folder), Components(Sibling(folder, newName)))
    requires AllExact(notes, folder, Sibling(folder, newName))
    ensures var to := Sibling(folder, newName);
      N.EveryRowHasFile(D.RenamedNotes(notes, folder, to), MovedFiles(files, Components(folder), Components(to)))
  {
    var to := Sibling(folder, newName);
    RenamedKeys(notes, files, dirs, folder, newName);
    MovedKeep(notes, D.RenamedNotes(notes, folder, to), files, dirs, Components(folder), Components(to));
  }

  lemma MovedKeep(notes: map<string, NoteRow>, notes': map<string, NoteRow>, files: Files, dirs: set<Path>, a: Path,
                  b: Path)
    requires N.EveryRowHasFile(notes, files) && notes'.Keys == notes.Keys && CanMove(files, dirs, a, b)
    requires forall id | id in notes :: N.KeyOf(notes'[id]) == Moved(a, b, N.KeyOf(notes[id]))
    ensures N.EveryRowHasFile(notes', MovedFiles(files, a, b))
  {
    forall id | id in notes' ensures N.KeyOf(notes'[id]) in MovedFiles(files, a, b) {
      MovedFileAt(files, dirs, a, b, N.KeyOf(notes[id]));
    }
  }

  /** What `UpdateFolder` can leave of rows and files under any fault. */
  ghost predicate Renamed(q: Request, r: F.UpdateFolderReply, s: State, s': State)
    requires q.FolderRename?
  {
    var to := Sibling(q.folder, q.newName);
    && (r.FolderUpdated? ==>
         && F.CanRename(s.files, s.dirs, q.folder, q.newName) && s'.notes == D.RenamedNotes(s.notes, q.folder, to)
         && s'.lists == D.RenamedLists(s.lists, q.folder, to)
         && s'.files == MovedFiles(s.files, Components(q.folder), Components(to)))
    && (!r.FolderUpdated? ==> s'.notes == s.notes && s'.lists == s.lists)
    && (r.RowsNotMoved? && !r.rolledBack ==>
         && F.CanRename(s.files, s.dirs, q.folder, q.newName)
         && s'.files == MovedFiles(s.files, Components(q.folder), Components(to)))
    && (!r.FolderUpdated? && (r.RowsNotMoved? ==> r.rolledBack) ==> s'.files == s.files)
    && s'.tasks == s.tasks && s'.trees == s.trees && IsTree(s'.files, s'.dirs)
  }

  lemma RenamedHolds(q: Request, r: F.UpdateFolderReply, s: State, s': State)
    requires q.FolderRename? && L.Holds(s.lists, s.tasks, s.trees) && Renamed(q, r, s, s')
    ensures L.Holds(s'.lists, s'.tasks, s'.trees)
  {
    L.RenameHolds(s.lists, s.tasks, s.trees, q.folder, Sibling(q.folder, q.newName));
  }

  lemma RenamedRows(q: Request, r: F.UpdateFolderReply, s: State, s': State)
    requires q.FolderRename? && RowsKept(s.notes, s.files) && Renamed(q, r, s, s')
    ensures s'.notes.Keys == s.notes.Keys
    ensures !Loses(s.notes, q, FolderAnswer(r)) ==> RowsKept(s'.notes, s'.files)
  {
    if r.FolderUpdated? {
      UpdatedSound(q, r, s, s');
    } else if r.RowsNotMoved? && !r.rolledBack {
      LeftBehind(s.notes, s.files, s.dirs, q.folder, q.newName);
    }
  }

  /** The rows that a move without them leaves without a file: those in and below the folder, if its name changes. */
  lemma LeftBehind(notes: map<string, NoteRow>, files: Files, dirs: set<Path>, folder: string, newName: string)
    requires RowsKept(notes, files) && F.CanRename(files, dirs, folder, newName)
    ensures var to := Sibling(folder, newName);
      N.EveryRowHasFile(notes, MovedFiles(files, Components(folder), Components(to)))
      <==> folder == to || forall id | id in notes :: !Under(folder, notes[id].parentDir)
  {
    var to := Sibling(folder, newName);
    var a, b := Components(folder), Components(to);
    NameGood(newName);
    SiblingComponents(folder, newName);
    ComponentsInjective(folder, to);
    if folder == to {
      MoveNowhere(files, dirs, a);
    } else {
      MovedFilesIff(files, dirs, a, b);
      forall id | id in notes
        ensures N.KeyOf(notes[id]) in MovedFiles(files, a, b) <==> !Under(folder, notes[id].parentDir)
      {
        LeftBehindRow(notes[id], files, dirs, folder, b);
      }
    }
  }

  lemma LeftBehindRow(row: NoteRow, files: Files, dirs: set<Path>, folder: string, b: Path)
    requires N.RowOk(row) && FolderPath(folder) && N.KeyOf(row) in files
    requires CanMove(files, dirs, Components(folder), b) && Components(folder) != b
    ensures N.KeyOf(row) in MovedFiles(files, Components(folder), b) <==> !Under(folder, row.parentDir)
  {
    var a, d, key := Components(folder), Components(row.parentDir), N.KeyOf(row);
    UnderIff(folder, row.parentDir);
    MovedFilesIff(files, dirs, a, b);
    N.NoteKeyNotTemp(row.parentDir, row.title, row.id, []);
    assert a <= key <==> a <= d by {
      assert Parent(key) == d && key[..|d|] == d && |key| == |d| + 1;
      assert a <= key && |a| == |key| ==> a == key;
    }
    if b <= key { NothingBelow(files, dirs, b, key); }
  }

  lemma UpdatedSound(q: Request, r: F.UpdateFolderReply, s: State, s': State)
    requires q.FolderRename? && RowsKept(s.notes, s.files) && Renamed(q, r, s, s') && r.FolderUpdated?
    ensures s'.notes.Keys == s.notes.Keys
    ensures !Loses(s.notes, q, FolderAnswer(r)) ==> RowsKept(s'.notes, s'.files)
  {
    if !Loses(s.notes, q, FolderAnswer(r)) {
      LosesNothing(s.notes, q, r);
      RenameKeeps(s.notes, s.files, s.dirs, q.folder, q.newName);
    }
  }

  lemma LosesNothing(notes: map<string, NoteRow>, q: Request, r: F.UpdateFolderReply)
    requires q.FolderRename? && r.FolderUpdated? && !Loses(notes, q, FolderAnswer(r))
    ensures AllExact(notes, q.folder, Sibling(q.folder, q.newName))
  {}

  lemma MovedLoses(q: Request, r: F.UpdateFolderReply, s: State, s': State)
    requires q.FolderRename? && Consistent(s.notes, s.files) && Renamed(q, r, s, s') && r.FolderUpdated?
    ensures N.EveryRowHasFile(s'.notes, s'.files) <==> AllExact(s.notes, q.folder, Sibling(q.folder, q.newName))
  {
    NameGood(q.newName);
    RenameKeepsFilesIff(s.notes, s.files, s.dirs, q.folder, q.newName);
  }

  lemma UnmovedLoses(q: Request, r: F.UpdateFolderReply, s: State, s': State)
    requires q.FolderRename? && RowsKept(s.notes, s.files) && Renamed(q, r, s, s') && !r.FolderUpdated?
    ensures N.EveryRowHasFile(s'.notes, s'.files) <==> !Loses(s.notes, q, FolderAnswer(r))
  {
    if r.RowsNotMoved? && !r.rolledBack {
      LeftBehind(s.notes, s.files, s.dirs, q.folder, q.newName);
    }
  }

  /** Where rows and files agreed before, a rename's answer tells whether every row still has its file. */
  lemma RenamedLoses(q: Request, r: F.UpdateFolderReply, s: State, s': State)
    requires q.FolderRename? && RowsKept(s.notes, s.files) && Renamed(q, r, s, s')
    ensures Consistent(s.notes, s.files) ==>
      (N.EveryRowHasFile(s'.notes, s'.files) <==> !Loses(s.notes, q, FolderAnswer(r)))
  {
    if !r.FolderUpdated? {
      UnmovedLoses(q, r, s, s');
    } else if Consistent(s.notes, s.files) {
      MovedLoses(q, r, s, s');
    }
  }

  method RenameAnyhow(disk: Disk, db: D.Database, q: Request, ghost trees: L.Trees) returns (a: Answer)
    requires Sound(Now(disk, db, trees)) && q.FolderRename?
    modifies disk`files, disk`dirs, disk`history, db`notes, db`lists
    ensures disk.Valid() && L.Holds(db.lists, db.tasks, trees) && db.notes.Keys == old(db.notes).Keys
    ensures !Loses(old(db.notes), q, a) ==> RowsKept(db.notes, disk.files)
    ensures Consistent(old(db.notes), old(disk.files)) ==>
      (N.EveryRowHasFile(db.notes, disk.files) <==> !Loses(old(db.notes), q, a))
  {
    ghost var s := Now(disk, db, trees);
    var r := MoveAnyhow(disk, db, q, trees);
    RenamedLoses(q, r, s, Now(disk, db, trees));
    RenamedHolds(q, r, s, Now(disk, db, trees));
    RenamedRows(q, r, s, Now(disk, db, trees));
    a := FolderAnswer(r);
  }

  method MoveAnyhow(disk: Disk, db: D.Database, q: Request, ghost trees: L.Trees) returns (r: F.UpdateFolderReply)
    requires disk.Valid() && q.FolderRename?
    modifies disk`files, disk`dirs, disk`history, db`notes, db`lists
    ensures Renamed(q, r, old(Now(disk, db, trees)), Now(disk, db, trees))
  {
    r := F.UpdateFolder(disk, db, q.folder, q.newName);
  }

  lemma OutsideRowsOk(notes: map<string, NoteRow>, folder: string)
    requires N.RowsOk(notes)
    ensures N.RowsOk(D.NotesOutside(notes, folder))
  {}

  method RemoveAnyhow(disk: Disk, db: D.Database, q: Request, ghost trees: L.Trees) returns (ghost trees': L.Trees)
    requires Sound(Now(disk, db, trees)) && q.FolderDelete?
    modifies disk`files, disk`dirs, disk`history, db
    ensures Sound(Now(disk, db, trees'))
    ensures db.notes.Keys <= old(db.notes).Keys
  {
    L.FolderDeleteHolds(db.lists, db.tasks, trees, q.folder);
    OutsideRowsOk(db.notes, q.folder);
    var r := F.DeleteFolder(disk, db, q.folder);
    trees' := if r.FolderDeleted? || r.FolderNotRemoved? then TreesLeft(db.lists, trees) else trees;
  }

  // ---- Task lists ----

  method ListAnyhow(disk: Disk, db: D.Database, q: Request, now: int, e: Engine, ghost trees: L.Trees)
    returns (ghost trees': L.Trees)
    requires L.Holds(db.lists, db.tasks, trees) && (q.ListCreate? || q.ListUpdate? || q.ListDelete?) && IdsOk(q)
    modifies db`lists, db`tasks
    ensures L.Holds(db.lists, db.tasks, trees')
  {
    trees' := trees;
    if q.ListCreate? {
      var r := L.CreateTaskList(disk, db, q.parentDir, q.title, q.tasks, q.isAutoDelete, now, q.id, q.newIds, e.valid,
          trees);
      if r.Ok? { trees' := trees[q.id := r.value.tasks]; }
    } else if q.ListUpdate? {
      var r, _, _ :=
        L.UpdateTaskList(db, q.id, q.title, q.tasks, q.isAutoDelete, now, q.newIds, e.valid, e.next, trees);
      if r.Ok? { trees' := trees[q.id := r.value.tasks]; }
    } else {
      var r := L.DeleteTaskList(db, q.id, trees);
      if r.Ok? { trees' := trees - {q.id}; }
    }
  }

  // ---- Any request, any run ----

  /** One request under any faults: unless its answer is one that `Loses`, everything holds after it; and
      the task tables hold exactly their trees in any case. A note request's answer is one that `Loses` exactly if
      some row is left without its file, and so is a rename's where rows and files agreed before. */
  method ServeAnyhow(disk: Disk, db: D.Database, q: Request, now: int, e: Engine, ghost trees: L.Trees)
    returns (a: Answer, ghost trees': L.Trees)
    requires Sound(Now(disk, db, trees)) && IdsOk(q) && (q.NoteCreate? ==> q.id !in db.notes)
    modifies disk, db
    ensures disk.Valid() && L.Holds(db.lists, db.tasks, trees')
    ensures !Loses(old(db.notes), q, a) ==> Sound(Now(disk, db, trees'))
    ensures q.NoteUpdate? || q.NoteDelete? || (q.FolderRename? && Consistent(old(db.notes), old(disk.files))) ==>
      (N.EveryRowHasFile(db.notes, disk.files) <==> !Loses(old(db.notes), q, a))
    ensures forall id | id in db.notes :: id in old(db.notes) || (q.NoteCreate? && id == q.id)
  {
    a, trees' := Harmless, trees;
    if q.NoteCreate? {
      CreateAnyhow(disk, db, q, now, trees);
    } else if q.NoteUpdate? {
      a := UpdateAnyhow(disk, db, q, now, trees);
    } else if q.NoteDelete? {
      a := DeleteAnyhow(disk, db, q, trees);
    } else if q.FolderCreate? {
      var _ := F.CreateFolder(disk, q.name, q.parentDir);
    } else if q.FolderRename? {
      a := RenameAnyhow(disk, db, q, trees);
    } else if q.FolderDelete? {
      trees' := RemoveAnyhow(disk, db, q, trees);
    } else {
      trees' := ListAnyhow(disk, db, q, now, e, trees);
    }
  }

  lemma StillFresh(requests: seq<Request>, k: nat, before: set<string>, ids: set<string>)
    requires k < |requests| && RequestsOk(requests) && IdsFresh(requests, k, before)
    requires forall id | id in ids :: id in before || (requests[k].NoteCreate? && id == requests[k].id)
    ensures IdsFresh(requests, k + 1, ids)
  {}

  /** Any sequence of requests under any faults, from a sound state: the state stays sound up to the first
      answer that `Loses`. The task tables hold exactly their trees even then. */
  method RunAnyhow(disk: Disk, db: D.Database, requests: seq<Request>, now: int, e: Engine, ghost trees: L.Trees)
    returns (served: nat, lost: bool, last: Answer, ghost before: State, ghost trees': L.Trees)
    requires Sound(Now(disk, db, trees)) && RequestsOk(requests) && IdsFresh(requests, 0, db.notes.Keys)
    modifies disk, db
    ensures served <= |requests| && disk.Valid() && L.Holds(db.lists, db.tasks, trees')
    ensures !lost ==> served == |requests| && Sound(Now(disk, db, trees'))
    ensures lost ==> 0 < served && Sound(before) && Loses(before.notes, requests[served - 1], last)
  {
    served, lost, last, before, trees' := 0, false, Harmless, Now(disk, db, trees), trees;
    while served < |requests| && !lost
      invariant served <= |requests| && disk.Valid() && L.Holds(db.lists, db.tasks, trees')
      invariant !lost ==> Sound(Now(disk, db, trees')) && IdsFresh(requests, served, db.notes.Keys)
      invariant lost ==> 0 < served && Sound(before) && Loses(before.notes, requests[served - 1], last)
      decreases |requests| - served
    {
      var notes := db.notes;
      before := Now(disk, db, trees');
      last, trees' := ServeAnyhow(disk, db, requests[served], now, e, trees');
      lost := Loses(notes, requests[served], last);
      StillFresh(requests, served, notes.Keys, db.notes.Keys);
      served := served + 1;
    }
  }
}
