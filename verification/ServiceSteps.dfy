/** Why each request, served without faults, changes the model as it should: one lemma per request, from
    the state before and the state the handler leaves. */
module ServiceSteps {
  import opened Strings
  import opened Rows
  import opened Paths
  import opened Like
  import opened DirRename
  import opened NotePaths
  import opened Disk
  import opened TaskUpdate
  import opened TaskStore
  import N = Notes
  import opened NoteStore
  import opened FolderStore
  import F = Folders
  import L = TaskLists
  import D = Database

  import opened ServiceModel

  // ---- Notes ----

  lemma ViewKeys(notes: map<string, NoteRow>, files: Files)
    requires N.EveryRowHasFile(notes, files)
    ensures N.View(notes, files).Keys == notes.Keys
  {
    forall id | id in notes ensures id in N.View(notes, files) { assert N.KeyOf(notes[id]) in files; }
  }

  /** The files are exactly the notes' paths. */
  lemma FilesAreKeys(notes: map<string, NoteRow>, files: Files)
    requires (forall id | id in notes :: notes[id].id == id) && InStep(notes, files)
    ensures NoteKeys(N.View(notes, files)) == files.Keys
  {
    var v := N.View(notes, files);
    ViewKeys(notes, files);
    forall p | p in files ensures p in NoteKeys(v) {
      var id :| id in notes && N.KeyOf(notes[id]) == p;
      assert id in v;
    }
  }

  lemma NewKeyFree(notes: map<string, NoteRow>, files: Files, row: NoteRow)
    requires Consistent(notes, files) && N.RowOk(row) && row.id !in notes
    ensures N.KeyOf(row) !in files
  {
    if N.KeyOf(row) in files {
      var id :| id in notes && N.KeyOf(notes[id]) == N.KeyOf(row);
      KeyNamesId(notes[id], row);
    }
  }

  /** The parts of the state that the note handlers leave alone. */
  ghost predicate SameRest(s: State, s': State) {
    s'.lists == s.lists && s'.tasks == s.tasks && s'.dirs == s.dirs && s'.trees == s.trees && IsTree(s'.files, s'.dirs)
  }

  lemma PartsGood(s: State)
    requires Consistent(s.notes, s.files) && IsTree(s.files, s.dirs) && ListsPart(s.lists, s.tasks, s.trees, s.dirs)
    ensures Good(s)
  {}

  lemma NoteShown(s: State, q: Request, s': State, e: Engine)
    requires (q.NoteCreate? || q.NoteUpdate? || q.NoteDelete?) && SameRest(s, s')
    requires N.View(s'.notes, s'.files) == NotesAfter(N.View(s.notes, s.files), s.dirs, q)
    ensures Step(Shown(s), q, Shown(s'), e)
  {}

  lemma NoteStep(s: State, q: Request, s': State, e: Engine)
    requires q.NoteCreate? || q.NoteUpdate? || q.NoteDelete?
    requires Good(s) && SameRest(s, s') && Consistent(s'.notes, s'.files)
    requires N.View(s'.notes, s'.files) == NotesAfter(N.View(s.notes, s.files), s.dirs, q)
    ensures Answers(s, q, s', e)
  {
    PartsGood(s');
    NoteShown(s, q, s', e);
  }

  lemma CreateServed(notes0: map<string, NoteRow>, files0: Files, dirs: set<Path>, row: NoteRow, content: string,
                     notes: map<string, NoteRow>, files: Files)
    requires Consistent(notes0, files0) && IsUuidV4(row.id) && row.id !in notes0 && row.preview == N.Preview(content)
    requires N.SameElsewhere(notes0, row.id, files, files0)
    requires if N.CanCreate(files0, dirs, row.parentDir, row.title, content, row.id)
             then notes == notes0[row.id := row] && files == files0[N.KeyOf(row) := content]
             else notes == notes0 && files == files0
    ensures Consistent(notes, files)
    ensures N.View(notes, files)
        == NotesAfter(N.View(notes0, files0), dirs, NoteCreate(row.parentDir, row.title, content, row.id))
  {
    if MayCreateNote(dirs, row.parentDir, row.title, content, row.id) {
      NewKeyFree(notes0, files0, row);
      CreateConsistent(notes0, files0, row, content);
    }
  }

  lemma UpdateServed(notes0: map<string, NoteRow>, files0: Files, dirs: set<Path>, id: string, title: string,
                     content: string, now: int, notes: map<string, NoteRow>, files: Files)
    requires Consistent(notes0, files0) && (id in notes0 ==> N.SameElsewhere(notes0, id, files, files0))
    requires if N.CanUpdate(notes0, files0, dirs, id, title, content)
             then var row := notes0[id].(title := title, preview := N.Preview(content), updatedAt := now);
                  notes == notes0[id := row] && files == (files0 - {N.KeyOf(notes0[id])})[N.KeyOf(row) := content]
             else notes == notes0 && files == files0
    ensures Consistent(notes, files)
    ensures N.View(notes, files) == NotesAfter(N.View(notes0, files0), dirs, NoteUpdate(id, title, content))
  {
    ViewKeys(notes0, files0);
    UpdateAllowed(notes0, files0, dirs, id, title, content);
    if N.CanUpdate(notes0, files0, dirs, id, title, content) {
      UpdateConsistent(notes0, files0, notes0[id].(title := title, preview := N.Preview(content), updatedAt := now),
          content);
    }
  }

  lemma UpdateAllowed(notes: map<string, NoteRow>, files: Files, dirs: set<Path>, id: string, title: string,
                      content: string)
    requires Consistent(notes, files)
    ensures N.CanUpdate(notes, files, dirs, id, title, content)
       <==> MayUpdateNote(N.View(notes, files), dirs, id, title, content)
  {
    if id in notes { assert N.KeyOf(notes[id]) in files; }
  }

  lemma OwnPathIsFile(notes: map<string, NoteRow>, files: Files, dirs: set<Path>, id: string)
    requires N.EveryRowHasFile(notes, files) && IsTree(files, dirs)
    ensures id in notes ==> N.KeyOf(notes[id]) !in dirs
  {
    assert id in notes ==> N.KeyOf(notes[id]) in files;
  }

  lemma DeleteServed(notes0: map<string, NoteRow>, files0: Files, dirs: set<Path>, id: string,
                     notes: map<string, NoteRow>, files: Files)
    requires Consistent(notes0, files0) && N.SameElsewhere(notes0, id, files, files0)
    requires notes == if id in notes0 then notes0 - {id} else notes0
    requires files == if id in notes0 then files0 - {N.KeyOf(notes0[id])} else files0
    ensures Consistent(notes, files) && N.View(notes, files) == N.View(notes0, files0) - {id}
  {
    if id in notes0 {
      DeleteConsistent(notes0, files0, id);
    } else {
      ViewKeys(notes0, files0);
      assert N.View(notes0, files0) - {id} == N.View(notes0, files0);
    }
  }

  /** What `CreateNote` leaves, without faults. */
  ghost predicate NoteAdded(s: State, q: Request, now: int, s': State)
    requires q.NoteCreate?
  {
    var row := NoteRow(q.id, q.title, q.parentDir, N.Preview(q.content), now, now);
    && SameRest(s, s') && N.SameElsewhere(s.notes, q.id, s'.files, s.files)
    && if N.CanCreate(s.files, s.dirs, q.parentDir, q.title, q.content, q.id)
       then s'.notes == s.notes[q.id := row] && s'.files == s.files[N.KeyOf(row) := q.content]
       else s'.notes == s.notes && s'.files == s.files
  }

  lemma NoteCreateStep(s: State, q: Request, now: int, s': State, e: Engine)
    requires Good(s) && q.NoteCreate? && IsUuidV4(q.id) && q.id !in s.notes && NoteAdded(s, q, now, s')
    ensures Answers(s, q, s', e)
  {
    CreateServed(s.notes, s.files, s.dirs, NoteRow(q.id, q.title, q.parentDir, N.Preview(q.content), now, now),
        q.content, s'.notes, s'.files);
    NoteStep(s, q, s', e);
  }

  /** What `UpdateNote` leaves, without faults. */
  ghost predicate NoteChanged(s: State, q: Request, now: int, s': State)
    requires q.NoteUpdate?
  {
    && SameRest(s, s') && (q.id in s.notes ==> N.SameElsewhere(s.notes, q.id, s'.files, s.files))
    && if N.CanUpdate(s.notes, s.files, s.dirs, q.id, q.title, q.content)
       then var row := s.notes[q.id].(title := q.title, preview := N.Preview(q.content), updatedAt := now);
            s'.notes == s.notes[q.id := row]
              && s'.files == (s.files - {N.KeyOf(s.notes[q.id])})[N.KeyOf(row) := q.content]
       else s'.notes == s.notes && s'.files == s.files
  }

  lemma NoteUpdateStep(s: State, q: Request, now: int, s': State, e: Engine)
    requires Good(s) && q.NoteUpdate? && NoteChanged(s, q, now, s')
    ensures Answers(s, q, s', e)
  {
    UpdateServed(s.notes, s.files, s.dirs, q.id, q.title, q.content, now, s'.notes, s'.files);
    NoteStep(s, q, s', e);
  }

  /** What `DeleteNote` leaves, without faults. */
  ghost predicate NoteDropped(s: State, q: Request, s': State)
    requires q.NoteDelete?
  {
    && SameRest(s, s') && N.SameElsewhere(s.notes, q.id, s'.files, s.files)
    && s'.notes == (if q.id in s.notes then s.notes - {q.id} else s.notes)
    && s'.files == if q.id in s.notes then s.files - {N.KeyOf(s.notes[q.id])} else s.files
  }

  lemma NoteDeleteStep(s: State, q: Request, s': State, e: Engine)
    requires Good(s) && q.NoteDelete? && NoteDropped(s, q, s')
    ensures Answers(s, q, s', e)
  {
    DeleteServed(s.notes, s.files, s.dirs, q.id, s'.notes, s'.files);
    NoteStep(s, q, s', e);
  }

  // ---- Folders ----

  /** What `CreateFolder` leaves, without faults. */
  ghost predicate FolderMade(s: State, q: Request, s': State)
    requires q.FolderCreate?
  {
    var dir := Components(q.parentDir) + [q.name];
    && IsTree(s'.files, s'.dirs)
    && var ok := Accepted(q.parentDir) && ValidName(q.name) && Components(q.parentDir) in s.dirs && dir !in s.files;
    s' == s.(dirs := if ok then s.dirs + {dir} else s.dirs)
  }

  /** The state after creating a folder. */
  ghost predicate FolderAdded(s: State, q: Request, s': State)
    requires q.FolderCreate?
  {
    s' == s.(dirs := DirsAfter(N.View(s.notes, s.files), s.dirs, q)) && IsTree(s'.files, s'.dirs)
  }

  lemma FolderMadeIsAdded(s: State, q: Request, s': State)
    requires NoteKeys(N.View(s.notes, s.files)) == s.files.Keys && q.FolderCreate? && FolderMade(s, q, s')
    ensures FolderAdded(s, q, s')
  {}

  lemma GoodKeys(s: State)
    requires Good(s)
    ensures NoteKeys(N.View(s.notes, s.files)) == s.files.Keys
  {
    FilesAreKeys(s.notes, s.files);
  }

  lemma FolderAddedGood(s: State, q: Request, s': State)
    requires Good(s) && q.FolderCreate? && FolderAdded(s, q, s')
    ensures Good(s')
  {
    MoreDirs(s.lists, s.dirs, s'.dirs);
    PartsGood(s');
  }

  lemma MoreDirs(lists: map<string, ListRow>, dirs: set<Path>, dirs': set<Path>)
    requires ListDirsExist(lists, dirs) && dirs <= dirs'
    ensures ListDirsExist(lists, dirs')
  {}

  lemma FolderAddedShown(s: State, q: Request, s': State, e: Engine)
    requires q.FolderCreate? && FolderAdded(s, q, s')
    ensures Step(Shown(s), q, Shown(s'), e)
  {}

  lemma FolderCreateStep(s: State, q: Request, s': State, e: Engine)
    requires Good(s) && q.FolderCreate? && FolderMade(s, q, s')
    ensures Answers(s, q, s', e)
  {
    GoodKeys(s);
    FolderMadeIsAdded(s, q, s');
    FolderAddedGood(s, q, s');
    FolderAddedShown(s, q, s', e);
  }

  lemma RenamedLists(lists: map<string, ListRow>, tasks: map<string, TaskRow>, trees: L.Trees, dirs: set<Path>,
                     from: string, newName: string)
    requires ListsPart(lists, tasks, trees, dirs) && FolderPath(from) && GoodComponent(newName)
    requires AllListsExact(lists, from, Sibling(from, newName))
    ensures var to := Sibling(from, newName);
      var lists' := D.RenamedLists(lists, from, to);
      && L.Holds(lists', tasks, trees) && ListDirsExist(lists', MovedDirs(dirs, Components(from), Components(to)))
      && forall l | l in lists :: lists'[l] == lists[l].(parentDir := Subst(from, to, lists[l].parentDir))
  {
    var to := Sibling(from, newName);
    var lists' := D.RenamedLists(lists, from, to);
    L.RenameHolds(lists, tasks, trees, from, to);
    forall l | l in lists
      ensures lists'[l] == lists[l].(parentDir := Subst(from, to, lists[l].parentDir))
      ensures Accepted(lists'[l].parentDir)
      ensures Components(lists'[l].parentDir) in MovedDirs(dirs, Components(from), Components(to))
    {
      RenamedDir(lists[l].parentDir, dirs, from, newName);
    }
  }

  lemma RenamedDir(dir: string, dirs: set<Path>, from: string, newName: string)
    requires Accepted(dir) && Components(dir) in dirs && FolderPath(from) && GoodComponent(newName)
    requires Exact(from, Sibling(from, newName), dir)
    ensures var to := Sibling(from, newName);
      && TwoPass(from, to, dir) == Subst(from, to, dir) && Accepted(Subst(from, to, dir))
      && Components(Subst(from, to, dir)) in MovedDirs(dirs, Components(from), Components(to))
  {
    TwoPassIff(from, newName, dir);
    SiblingPaths(from, newName);
    SubstMoves(from, Sibling(from, newName), dir);
  }

  lemma MayRenameIff(notes: map<string, NoteRow>, files: Files, dirs: set<Path>, folder: string, newName: string)
    requires NotesPart(notes, files, dirs)
    ensures MayRename(N.View(notes, files), dirs, folder, newName) <==> F.CanRename(files, dirs, folder, newName)
  {
    FilesAreKeys(notes, files);
    if ValidName(newName) && FolderPath(folder) { SiblingPaths(folder, newName); }
  }

  /** Both stores after a rename without faults: all moved, or nothing. */
  lemma RenameServed(notes: map<string, NoteRow>, files: Files, dirs: set<Path>, folder: string, newName: string)
    requires NotesPart(notes, files, dirs) && F.CanRename(files, dirs, folder, newName)
    requires AllExact(notes, folder, Sibling(folder, newName))
    ensures var to := Sibling(folder, newName);
      var notes', files' := D.RenamedNotes(notes, folder, to), MovedFiles(files, Components(folder), Components(to));
      Consistent(notes', files') && N.View(notes', files') == RenamedView(N.View(notes, files), folder, to)
  {
    NameGood(newName);
    RenameCommutes(notes, files, dirs, folder, newName);
  }

  lemma RenameListsServed(lists: map<string, ListRow>, tasks: map<string, TaskRow>, trees: L.Trees, dirs: set<Path>,
                          folder: string, newName: string)
    requires ListsPart(lists, tasks, trees, dirs) && FolderPath(folder) && ValidName(newName)
    requires AllListsExact(lists, folder, Sibling(folder, newName))
    ensures var to := Sibling(folder, newName);
      var lists' := D.RenamedLists(lists, folder, to);
      && ListsPart(lists', tasks, trees, MovedDirs(dirs, Components(folder), Components(to)))
      && Infos(lists', trees) == RenamedInfo(Infos(lists, trees), folder, to)
  {
    NameGood(newName);
    RenamedLists(lists, tasks, trees, dirs, folder, newName);
    RenamedInfos(lists, D.RenamedLists(lists, folder, Sibling(folder, newName)), trees, folder,
        Sibling(folder, newName));
  }

  lemma StoredApart(notes: map<string, NoteRow>, lists: map<string, ListRow>, from: string, to: string)
    requires forall d | d in StoredDirs(notes, lists) :: Exact(from, to, d)
    ensures AllExact(notes, from, to) && AllListsExact(lists, from, to)
  {
    forall id | id in notes
      ensures Exact(from, to, notes[id].parentDir)
    {
      assert notes[id].parentDir in StoredDirs(notes, lists);
    }
    forall l | l in lists
      ensures Exact(from, to, lists[l].parentDir)
    {
      assert lists[l].parentDir in StoredDirs(notes, lists);
    }
  }

  lemma RenamedInfos(lists: map<string, ListRow>, lists': map<string, ListRow>, trees: L.Trees, from: string,
                     to: string)
    requires lists'.Keys == lists.Keys
    requires forall l | l in lists :: lists'[l] == lists[l].(parentDir := Subst(from, to, lists[l].parentDir))
    ensures Infos(lists', trees) == RenamedInfo(Infos(lists, trees), from, to)
  {}

  lemma RenameNotesStep(s: State, q: Request, s': State)
    requires Good(s) && q.FolderRename? && AllExact(s.notes, q.folder, Sibling(q.folder, q.newName))
    requires AllMoved(F.CanRename(s.files, s.dirs, q.folder, q.newName), q.folder, q.newName, s, s')
    ensures Consistent(s'.notes, s'.files)
    ensures N.View(s'.notes, s'.files) == if F.CanRename(s.files, s.dirs, q.folder, q.newName)
      then RenamedView(N.View(s.notes, s.files), q.folder, Sibling(q.folder, q.newName)) else N.View(s.notes, s.files)
  {
    if F.CanRename(s.files, s.dirs, q.folder, q.newName) {
      RenameServed(s.notes, s.files, s.dirs, q.folder, q.newName);
    }
  }

  lemma RenameListsStep(ok: bool, s: State, q: Request, s': State)
    requires ListsPart(s.lists, s.tasks, s.trees, s.dirs) && q.FolderRename?
    requires (ok ==> FolderPath(q.folder) && ValidName(q.newName))
    requires AllListsExact(s.lists, q.folder, Sibling(q.folder, q.newName))
    requires AllMoved(ok, q.folder, q.newName, s, s')
    ensures ListsPart(s'.lists, s'.tasks, s'.trees, s'.dirs)
    ensures var infos, to := Infos(s.lists, s.trees), Sibling(q.folder, q.newName);
      Infos(s'.lists, s'.trees) == if ok then RenamedInfo(infos, q.folder, to) else infos
  {
    if ok { RenameListsServed(s.lists, s.tasks, s.trees, s.dirs, q.folder, q.newName); }
  }

  /** The model after a rename. */
  ghost function RenamedModel(m: Model, q: Request): Model
    requires q.FolderRename?
  {
    var to := Sibling(q.folder, q.newName);
    if MayRename(m.notes, m.dirs, q.folder, q.newName) then
      Model(RenamedView(m.notes, q.folder, to), RenamedInfo(m.lists, q.folder, to),
          MovedDirs(m.dirs, Components(q.folder), Components(to)))
    else m
  }

  lemma RenameAfter(m: Model, q: Request, m': Model, e: Engine)
    requires q.FolderRename? && m' == RenamedModel(m, q)
    ensures Step(m, q, m', e)
  {}

  /** A rename that LIKE can tell apart moves rows and files together. */
  lemma FolderRenameStep(s: State, q: Request, s': State, e: Engine)
    requires Good(s) && q.FolderRename? && Apart(s, q)
    requires AllMoved(F.CanRename(s.files, s.dirs, q.folder, q.newName), q.folder, q.newName, s, s')
    requires IsTree(s'.files, s'.dirs)
    ensures Answers(s, q, s', e)
  {
    FolderRenameParts(s, q, s');
    PartsGood(s');
    RenameAfter(Shown(s), q, Shown(s'), e);
  }

  /** The parts of the state after a rename. */
  lemma FolderRenameParts(s: State, q: Request, s': State)
    requires Good(s) && q.FolderRename? && Apart(s, q)
    requires AllMoved(F.CanRename(s.files, s.dirs, q.folder, q.newName), q.folder, q.newName, s, s')
    ensures Consistent(s'.notes, s'.files) && ListsPart(s'.lists, s'.tasks, s'.trees, s'.dirs)
    ensures Shown(s') == RenamedModel(Shown(s), q)
  {
    RenameAllowed(s, q);
    if MayRename(N.View(s.notes, s.files), s.dirs, q.folder, q.newName) {
      StoredApart(s.notes, s.lists, q.folder, Sibling(q.folder, q.newName));
      RenameNotesStep(s, q, s');
      RenameListsStep(true, s, q, s');
      RenamedShown(s, q, s');
    }
  }

  lemma RenameAllowed(s: State, q: Request)
    requires Good(s) && q.FolderRename?
    ensures var ok := F.CanRename(s.files, s.dirs, q.folder, q.newName);
      (ok ==> FolderPath(q.folder) && ValidName(q.newName))
        && (ok <==> MayRename(N.View(s.notes, s.files), s.dirs, q.folder, q.newName))
  {
    MayRenameIff(s.notes, s.files, s.dirs, q.folder, q.newName);
  }

  lemma RenamedShown(s: State, q: Request, s': State)
    requires q.FolderRename?
    requires var to, view, infos := Sibling(q.folder, q.newName), N.View(s.notes, s.files), Infos(s.lists, s.trees);
      var ok := MayRename(view, s.dirs, q.folder, q.newName);
      && N.View(s'.notes, s'.files) == (if ok then RenamedView(view, q.folder, to) else view)
      && Infos(s'.lists, s'.trees) == (if ok then RenamedInfo(infos, q.folder, to) else infos)
      && s'.dirs == if ok then MovedDirs(s.dirs, Components(q.folder), Components(to)) else s.dirs
    ensures Shown(s') == RenamedModel(Shown(s), q)
  {}

  lemma ListsDeleted(lists: map<string, ListRow>, tasks: map<string, TaskRow>, trees: L.Trees, dirs: set<Path>,
                     folder: string)
    requires ListsPart(lists, tasks, trees, dirs) && MayDeleteFolder(dirs, folder)
    requires NoListVariant(lists, folder)
    ensures var lists' := D.ListsOutside(lists, folder);
      && var dirs' := set d | d in dirs && !(Components(folder) <= d);
      && ListsPart(lists', Cascade(lists'.Keys, tasks), TreesLeft(lists', trees), dirs')
      && Infos(lists', TreesLeft(lists', trees)) == InfosOutside(Infos(lists, trees), folder)
  {
    L.FolderDeleteHolds(lists, tasks, trees, folder);
    SelectedIsUnder(lists, dirs, folder);
    InfosLeft(lists, trees, folder);
  }

  lemma SelectedIsUnder(lists: map<string, ListRow>, dirs: set<Path>, folder: string)
    requires ListDirsExist(lists, dirs) && FolderPath(folder)
    requires NoListVariant(lists, folder)
    ensures forall l | l in lists :: D.DirSelected(folder, lists[l].parentDir) <==> Under(folder, lists[l].parentDir)
    ensures ListDirsExist(D.ListsOutside(lists, folder), set d | d in dirs && !(Components(folder) <= d))
  {
    forall l | l in lists
      ensures D.DirSelected(folder, lists[l].parentDir) <==> Under(folder, lists[l].parentDir)
      ensures Components(folder) <= Components(lists[l].parentDir) <==> Under(folder, lists[l].parentDir)
    {
      UnderIff(folder, lists[l].parentDir);
      SelectsIff(folder + "/", lists[l].parentDir);
    }
  }

  lemma InfosLeft(lists: map<string, ListRow>, trees: L.Trees, folder: string)
    requires forall l | l in lists :: D.DirSelected(folder, lists[l].parentDir) <==> Under(folder, lists[l].parentDir)
    ensures var lists' := D.ListsOutside(lists, folder);
      Infos(lists', TreesLeft(lists', trees)) == InfosOutside(Infos(lists, trees), folder)
  {}

  lemma NotesDeleted(notes: map<string, NoteRow>, files: Files, dirs: set<Path>, folder: string)
    requires NotesPart(notes, files, dirs) && MayDeleteFolder(dirs, folder) && NoCaseVariant(notes, folder)
    ensures var notes', files' := D.NotesOutside(notes, folder), FilesOutside(files, Components(folder));
      Consistent(notes', files') && N.View(notes', files') == ViewOutside(N.View(notes, files), folder)
  {
    DeleteExactIff(notes, files, dirs, folder);
  }

  lemma StoredNoVariant(notes: map<string, NoteRow>, lists: map<string, ListRow>, folder: string)
    requires forall d | d in StoredDirs(notes, lists) :: D.DirSelected(folder, d) ==> Under(folder, d)
    ensures NoCaseVariant(notes, folder) && NoListVariant(lists, folder)
  {
    forall id | id in notes ensures D.DirSelected(folder, notes[id].parentDir) ==> Under(folder, notes[id].parentDir) {
      assert notes[id].parentDir in StoredDirs(notes, lists);
    }
    forall l | l in lists ensures D.DirSelected(folder, lists[l].parentDir) ==> Under(folder, lists[l].parentDir) {
      assert lists[l].parentDir in StoredDirs(notes, lists);
    }
  }

  /** The model after a folder delete. */
  ghost function DeletedModel(m: Model, q: Request): Model
    requires q.FolderDelete?
  {
    if MayDeleteFolder(m.dirs, q.folder) then
      Model(ViewOutside(m.notes, q.folder), InfosOutside(m.lists, q.folder),
            set d | d in m.dirs && !(Components(q.folder) <= d))
    else m
  }

  lemma DeleteAfter(m: Model, q: Request, m': Model, e: Engine)
    requires q.FolderDelete? && m' == DeletedModel(m, q)
    ensures Step(m, q, m', e)
  {}

  lemma FolderDeleteStep(s: State, q: Request, s': State, e: Engine)
    requires Good(s) && q.FolderDelete? && Apart(s, q)
    requires AllDeleted(MayDeleteFolder(s.dirs, q.folder), q.folder, s, s') && IsTree(s'.files, s'.dirs)
    ensures Answers(s, q, s', e)
  {
    FolderDeleteParts(s, q, s');
    PartsGood(s');
    DeleteAfter(Shown(s), q, Shown(s'), e);
  }

  lemma FolderDeleteParts(s: State, q: Request, s': State)
    requires Good(s) && q.FolderDelete? && Apart(s, q)
    requires AllDeleted(MayDeleteFolder(s.dirs, q.folder), q.folder, s, s')
    ensures Consistent(s'.notes, s'.files) && ListsPart(s'.lists, s'.tasks, s'.trees, s'.dirs)
    ensures Shown(s') == DeletedModel(Shown(s), q)
  {
    if MayDeleteFolder(s.dirs, q.folder) {
      StoredNoVariant(s.notes, s.lists, q.folder);
      NotesDeleted(s.notes, s.files, s.dirs, q.folder);
      ListsDeleted(s.lists, s.tasks, s.trees, s.dirs, q.folder);
    }
  }

  // ---- Exactly when a folder request does what it should ----

  /** If every note is shown after the rename, each row kept its file. */
  lemma ShownRenameExact(s: State, q: Request, s': State)
    requires Good(s) && q.FolderRename? && F.CanRename(s.files, s.dirs, q.folder, q.newName)
    requires AllMoved(true, q.folder, q.newName, s, s')
    requires N.View(s'.notes, s'.files) == RenamedView(N.View(s.notes, s.files), q.folder, Sibling(q.folder, q.newName))
    ensures AllExact(s.notes, q.folder, Sibling(q.folder, q.newName))
  {
    ViewKeys(s.notes, s.files);
    forall id | id in s'.notes ensures N.KeyOf(s'.notes[id]) in s'.files {
      assert id in RenamedView(N.View(s.notes, s.files), q.folder, Sibling(q.folder, q.newName));
    }
    NameGood(q.newName);
    RenameKeepsFilesIff(s.notes, s.files, s.dirs, q.folder, q.newName);
  }

  lemma InfosRenameExact(lists: map<string, ListRow>, trees: L.Trees, folder: string, newName: string)
    requires FolderPath(folder) && ValidName(newName) && trees.Keys == lists.Keys
    requires forall l | l in lists :: Accepted(lists[l].parentDir)
    requires var to := Sibling(folder, newName);
      Infos(D.RenamedLists(lists, folder, to), trees) == RenamedInfo(Infos(lists, trees), folder, to)
    ensures AllListsExact(lists, folder, Sibling(folder, newName))
  {
    var to := Sibling(folder, newName);
    NameGood(newName);
    forall l | l in lists ensures Exact(folder, to, lists[l].parentDir) {
      assert Infos(D.RenamedLists(lists, folder, to), trees)[l].parentDir == TwoPass(folder, to, lists[l].parentDir);
      assert RenamedInfo(Infos(lists, trees), folder, to)[l].parentDir == Subst(folder, to, lists[l].parentDir);
      TwoPassIff(folder, newName, lists[l].parentDir);
    }
  }

  lemma StepOfRename(m: Model, q: Request, m': Model, e: Engine)
    requires q.FolderRename? && Step(m, q, m', e)
    ensures m' == RenamedModel(m, q)
  {}

  lemma ListDirs(lists: map<string, ListRow>, tasks: map<string, TaskRow>, trees: L.Trees, dirs: set<Path>)
    requires ListsPart(lists, tasks, trees, dirs)
    ensures trees.Keys == lists.Keys && forall l | l in lists :: Accepted(lists[l].parentDir)
  {}

  lemma ExactIsApart(s: State, q: Request)
    requires q.FolderRename? && AllExact(s.notes, q.folder, Sibling(q.folder, q.newName))
    requires AllListsExact(s.lists, q.folder, Sibling(q.folder, q.newName))
    ensures Apart(s, q)
  {
    forall d | d in StoredDirs(s.notes, s.lists) ensures Exact(q.folder, Sibling(q.folder, q.newName), d) {}
  }

  lemma RefusedIsApart(s: State, q: Request)
    requires q.FolderRename? && !MayRename(N.View(s.notes, s.files), s.dirs, q.folder, q.newName)
    ensures Apart(s, q)
  {}

  /** What an allowed rename leaves of notes and lists, if the model follows. */
  lemma RenamedParts(s: State, q: Request, s': State)
    requires q.FolderRename? && MayRename(N.View(s.notes, s.files), s.dirs, q.folder, q.newName)
    requires AllMoved(true, q.folder, q.newName, s, s') && Shown(s') == RenamedModel(Shown(s), q)
    ensures var to := Sibling(q.folder, q.newName);
      && N.View(s'.notes, s'.files) == RenamedView(N.View(s.notes, s.files), q.folder, to)
      && Infos(D.RenamedLists(s.lists, q.folder, to), s.trees) == RenamedInfo(Infos(s.lists, s.trees), q.folder, to)
  {}

  /** An allowed rename shows the substitution in all three parts only if LIKE tells the directories apart. */
  lemma RenameNeedsApart(s: State, q: Request, s': State, e: Engine)
    requires Good(s) && q.FolderRename?
    requires AllMoved(F.CanRename(s.files, s.dirs, q.folder, q.newName), q.folder, q.newName, s, s')
    requires Step(Shown(s), q, Shown(s'), e)
    ensures Apart(s, q)
  {
    RenameAllowed(s, q);
    StepOfRename(Shown(s), q, Shown(s'), e);
    if MayRename(N.View(s.notes, s.files), s.dirs, q.folder, q.newName) {
      RenamedParts(s, q, s');
      ShownRenameExact(s, q, s');
      ListDirs(s.lists, s.tasks, s.trees, s.dirs);
      InfosRenameExact(s.lists, s.trees, q.folder, q.newName);
      ExactIsApart(s, q);
    } else {
      RefusedIsApart(s, q);
    }
  }

  /** A rename without faults does what it should if and only if LIKE tells the stored directories apart. */
  lemma FolderRenameIff(s: State, q: Request, s': State, e: Engine)
    requires Good(s) && q.FolderRename? && IsTree(s'.files, s'.dirs)
    requires AllMoved(F.CanRename(s.files, s.dirs, q.folder, q.newName), q.folder, q.newName, s, s')
    ensures Step(Shown(s), q, Shown(s'), e) <==> Apart(s, q)
    ensures Answers(s, q, s', e) <==> Apart(s, q)
  {
    if Apart(s, q) { FolderRenameStep(s, q, s', e); }
    if Step(Shown(s), q, Shown(s'), e) { RenameNeedsApart(s, q, s', e); }
  }

  lemma InfosDeleteExact(lists: map<string, ListRow>, trees: L.Trees, folder: string)
    requires trees.Keys == lists.Keys
    requires var kept := D.ListsOutside(lists, folder);
      Infos(kept, TreesLeft(kept, trees)) == InfosOutside(Infos(lists, trees), folder)
    ensures NoListVariant(lists, folder)
  {
    var kept := D.ListsOutside(lists, folder);
    forall l | l in lists && D.DirSelected(folder, lists[l].parentDir) ensures Under(folder, lists[l].parentDir) {
      assert l !in Infos(kept, TreesLeft(kept, trees));
      assert l in Infos(lists, trees);
    }
  }

  lemma StepOfDelete(m: Model, q: Request, m': Model, e: Engine)
    requires q.FolderDelete? && Step(m, q, m', e)
    ensures m' == DeletedModel(m, q)
  {}

  lemma NoVariantIsApart(s: State, q: Request)
    requires q.FolderDelete? && NoCaseVariant(s.notes, q.folder) && NoListVariant(s.lists, q.folder)
    ensures Apart(s, q)
  {
    forall d | d in StoredDirs(s.notes, s.lists) && D.DirSelected(q.folder, d) ensures Under(q.folder, d) {}
  }

  /** What an allowed delete leaves of notes and lists, if the model follows. */
  lemma LeftParts(s: State, q: Request, s': State)
    requires q.FolderDelete? && MayDeleteFolder(s.dirs, q.folder) && AllDeleted(true, q.folder, s, s')
    requires Shown(s') == DeletedModel(Shown(s), q)
    ensures N.View(D.NotesOutside(s.notes, q.folder), FilesOutside(s.files, Components(q.folder)))
        == ViewOutside(N.View(s.notes, s.files), q.folder)
    ensures var kept := D.ListsOutside(s.lists, q.folder);
      Infos(kept, TreesLeft(kept, s.trees)) == InfosOutside(Infos(s.lists, s.trees), q.folder)
  {}

  lemma DeleteNeedsApart(s: State, q: Request, s': State, e: Engine)
    requires Good(s) && q.FolderDelete? && AllDeleted(MayDeleteFolder(s.dirs, q.folder), q.folder, s, s')
    requires Step(Shown(s), q, Shown(s'), e)
    ensures Apart(s, q)
  {
    StepOfDelete(Shown(s), q, Shown(s'), e);
    if MayDeleteFolder(s.dirs, q.folder) {
      LeftParts(s, q, s');
      DeleteExactIff(s.notes, s.files, s.dirs, q.folder);
      ListDirs(s.lists, s.tasks, s.trees, s.dirs);
      InfosDeleteExact(s.lists, s.trees, q.folder);
      NoVariantIsApart(s, q);
    }
  }

  /** A delete without faults does what it should if and only if LIKE tells the stored directories apart. */
  lemma FolderDeleteIff(s: State, q: Request, s': State, e: Engine)
    requires Good(s) && q.FolderDelete? && IsTree(s'.files, s'.dirs)
    requires AllDeleted(MayDeleteFolder(s.dirs, q.folder), q.folder, s, s')
    ensures Step(Shown(s), q, Shown(s'), e) <==> Apart(s, q)
    ensures Answers(s, q, s', e) <==> Apart(s, q)
  {
    if Apart(s, q) { FolderDeleteStep(s, q, s', e); }
    if Step(Shown(s), q, Shown(s'), e) { DeleteNeedsApart(s, q, s', e); }
  }
}
