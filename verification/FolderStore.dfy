/** Renaming and deleting a folder in both stores: the rewrite of the rows against the move or the
    removal of the subtree on disk. */
module FolderStore {
  import opened Strings
  import opened Rows
  import opened Paths
  import opened Like
  import opened DirRename
  import opened NotePaths
  import opened Disk
  import opened Notes
  import opened NoteStore
  import D = Database

  lemma NameGood(name: string)
    requires ValidName(name)
    ensures GoodComponent(name)
  {}

  /** The old and the new folder are siblings on disk. */
  lemma SiblingPaths(from: string, newName: string)
    requires FolderPath(from) && GoodComponent(newName)
    ensures Siblings(Components(from), Components(Sibling(from, newName)))
    ensures FolderPath(Sibling(from, newName))
    ensures Components(Sibling(from, newName)) == Parent(Components(from)) + [newName]
  {
    SiblingComponents(from, newName);
    assert Components(from) != [];
  }

  // ---- One row ----

  lemma MovedKey(a: Path, b: Path, dir: Path, file: string)
    requires dir + [file] != a
    ensures Moved(a, b, dir + [file]) == Moved(a, b, dir) + [file]
  {
    if a <= dir + [file] {
      assert a <= dir by { assert (dir + [file])[..|dir|] == dir; }
      assert (dir + [file])[|a|..] == dir[|a|..] + [file];
    }
  }

  /** The rewritten directory names the directory of the substitution only if it is that string. */
  lemma TwoPassNames(from: string, to: string, dir: string)
    requires FolderPath(from) && FolderPath(to) && !Selects(from + "/", to)
    ensures Components(TwoPass(from, to, dir)) == Components(Subst(from, to, dir))
       <==> TwoPass(from, to, dir) == Subst(from, to, dir)
  {
    SelectsIff(from + "/", dir);
    if dir != from && Selects(from + "/", dir) {
      assert |TwoPass(from, to, dir)| >= 2 && |Subst(from, to, dir)| >= 2;
      SameFolder(TwoPass(from, to, dir), Subst(from, to, dir));
    }
  }

  /** After the rename a row's `NotePath` is where the subtree move put its file exactly when its
      directory is one that `Exact` admits. */
  lemma RowFollowsFile(row: NoteRow, from: string, newName: string)
    requires Accepted(row.parentDir) && FolderPath(from) && GoodComponent(newName) && KeyOf(row) != Components(from)
    ensures var to := Sibling(from, newName);
      var key := KeyOf(row.(parentDir := TwoPass(from, to, row.parentDir)));
      key == Moved(Components(from), Components(to), KeyOf(row)) <==> Exact(from, to, row.parentDir)
  {
    var to, dir, file := Sibling(from, newName), row.parentDir, NoteFile(row.title, row.id);
    SiblingPaths(from, newName);
    MovedKey(Components(from), Components(to), Components(dir), file);
    SubstMoves(from, to, dir);
    RenamedNotSelected(from, newName);
    TwoPassNames(from, to, dir);
    TwoPassIff(from, newName, dir);
    SnocEqual(Components(TwoPass(from, to, dir)), Components(Subst(from, to, dir)), file);
  }

  lemma SnocEqual(a: Path, b: Path, file: string)
    ensures a + [file] == b + [file] <==> a == b
  {
    assert (a + [file])[..|a + [file]| - 1] == a && (b + [file])[..|b + [file]| - 1] == b;
  }

  // ---- The whole table ----

  /** The rows whose rename the two passes get right. */
  predicate AllExact(notes: map<string, NoteRow>, from: string, to: string) {
    forall id | id in notes :: Exact(from, to, notes[id].parentDir)
  }

  /** What the service should show after the rename. */
  function RenamedView(view: map<string, Note>, from: string, to: string): map<string, Note> {
    map id | id in view :: view[id].(parentDir := Subst(from, to, view[id].parentDir))
  }

  /** Where a row's file is expected after the rename. */
  ghost predicate Follows(notes: map<string, NoteRow>, from: string, to: string, id: string)
    requires id in notes
  {
    KeyOf(D.RenamedNotes(notes, from, to)[id]) == Moved(Components(from), Components(to), KeyOf(notes[id]))
  }

  lemma AllFollow(notes: map<string, NoteRow>, files: Files, dirs: set<Path>, from: string, newName: string)
    requires RowsOk(notes) && EveryRowHasFile(notes, files) && IsTree(files, dirs)
    requires FolderPath(from) && GoodComponent(newName) && Components(from) in dirs
    ensures forall id | id in notes ::
      Follows(notes, from, Sibling(from, newName), id) <==> Exact(from, Sibling(from, newName), notes[id].parentDir)
  {
    forall id | id in notes
      ensures Follows(notes, from, Sibling(from, newName), id)
         <==> Exact(from, Sibling(from, newName), notes[id].parentDir)
    {
      RowFollowsFile(notes[id], from, newName);
    }
  }

  /** The move on disk as `UpdateFolder` makes it: to a free sibling, or nowhere. */
  ghost predicate CanMove(files: Files, dirs: set<Path>, a: Path, b: Path) {
    IsTree(files, dirs) && Siblings(a, b) && a in dirs && (a == b || (b !in files && b !in dirs))
  }

  /** Rows that follow their files keep them. */
  lemma FollowersHaveFiles(notes: map<string, NoteRow>, files: Files, notes': map<string, NoteRow>, files': Files,
                           a: Path, b: Path)
    requires EveryRowHasFile(notes, files) && PreviewsMatch(notes, files) && notes'.Keys == notes.Keys
    requires forall p | p in files :: Moved(a, b, p) in files' && files'[Moved(a, b, p)] == files[p]
    requires forall id | id in notes ::
      KeyOf(notes'[id]) == Moved(a, b, KeyOf(notes[id])) && notes'[id].preview == notes[id].preview
    ensures EveryRowHasFile(notes', files') && PreviewsMatch(notes', files')
    ensures forall id | id in notes :: files'[KeyOf(notes'[id])] == files[KeyOf(notes[id])]
  {
    forall id | id in notes
      ensures KeyOf(notes'[id]) in files' && files'[KeyOf(notes'[id])] == files[KeyOf(notes[id])]
      ensures IsPreview(notes'[id].preview, files'[KeyOf(notes'[id])])
    {
      assert KeyOf(notes[id]) in files;
    }
  }

  lemma FollowersOwnFiles(notes: map<string, NoteRow>, files: Files, notes': map<string, NoteRow>, a: Path, b: Path)
    requires NoOrphans(notes, files) && notes'.Keys == notes.Keys
    requires forall id | id in notes :: KeyOf(notes'[id]) == Moved(a, b, KeyOf(notes[id]))
    ensures NoOrphans(notes', MovedFiles(files, a, b))
  {
    forall q | q in MovedFiles(files, a, b) ensures exists id :: id in notes' && KeyOf(notes'[id]) == q {
      var p := MovedFileFrom(files, a, b, q);
      var id :| id in notes && KeyOf(notes[id]) == p;
      assert id in notes';
    }
  }

  lemma RenamedRowsOk(notes: map<string, NoteRow>, from: string, newName: string)
    requires RowsOk(notes) && FolderPath(from) && GoodComponent(newName)
    requires AllExact(notes, from, Sibling(from, newName))
    ensures var to, notes' := Sibling(from, newName), D.RenamedNotes(notes, from, Sibling(from, newName));
      RowsOk(notes') && forall id | id in notes ::
        notes'[id] == notes[id].(parentDir := Subst(from, to, notes[id].parentDir))
  {
    var to, notes' := Sibling(from, newName), D.RenamedNotes(notes, from, Sibling(from, newName));
    forall id | id in notes
      ensures notes'[id].id == id && RowOk(notes'[id])
      ensures notes'[id] == notes[id].(parentDir := Subst(from, to, notes[id].parentDir))
    {
      RenamedRowOk(notes[id], from, newName);
    }
  }

  lemma RenamedRowOk(row: NoteRow, from: string, newName: string)
    requires RowOk(row) && FolderPath(from) && GoodComponent(newName)
    requires Exact(from, Sibling(from, newName), row.parentDir)
    ensures var to := Sibling(from, newName);
      TwoPass(from, to, row.parentDir) == Subst(from, to, row.parentDir) && Accepted(Subst(from, to, row.parentDir))
  {
    TwoPassIff(from, newName, row.parentDir);
    SiblingPaths(from, newName);
    SubstMoves(from, Sibling(from, newName), row.parentDir);
  }

  /** The rename commutes with the move: where `Exact` admits every row, both stores stay consistent
      and the map of notes is the substitution applied to every directory. */
  lemma RenameCommutes(notes: map<string, NoteRow>, files: Files, dirs: set<Path>, from: string, newName: string)
    requires Consistent(notes, files) && FolderPath(from) && GoodComponent(newName)
    requires CanMove(files, dirs, Components(from), Components(Sibling(from, newName)))
    requires AllExact(notes, from, Sibling(from, newName))
    ensures var to := Sibling(from, newName);
      var notes', files' := D.RenamedNotes(notes, from, to), MovedFiles(files, Components(from), Components(to));
      Consistent(notes', files') && View(notes', files') == RenamedView(View(notes, files), from, to)
  {
    var to := Sibling(from, newName);
    RenamedRowsOk(notes, from, newName);
    RenamedKeys(notes, files, dirs, from, newName);
    RenamedStep(notes, files, dirs, D.RenamedNotes(notes, from, to), Components(from), Components(to), from, to);
  }

  lemma RenamedKeys(notes: map<string, NoteRow>, files: Files, dirs: set<Path>, from: string, newName: string)
    requires RowsOk(notes) && EveryRowHasFile(notes, files) && IsTree(files, dirs) && FolderPath(from)
    requires GoodComponent(newName)
    requires Components(from) in dirs && AllExact(notes, from, Sibling(from, newName))
    ensures var to := Sibling(from, newName);
      forall id | id in notes ::
        KeyOf(D.RenamedNotes(notes, from, to)[id]) == Moved(Components(from), Components(to), KeyOf(notes[id]))
  {
    var to := Sibling(from, newName);
    AllFollow(notes, files, dirs, from, newName);
    forall id | id in notes ensures Follows(notes, from, to, id) { assert Exact(from, to, notes[id].parentDir); }
  }

  lemma RenamedStep(notes: map<string, NoteRow>, files: Files, dirs: set<Path>, notes': map<string, NoteRow>, a: Path,
                    b: Path, from: string, to: string)
    requires InStep(notes, files) && CanMove(files, dirs, a, b) && notes'.Keys == notes.Keys
    requires forall id | id in notes :: KeyOf(notes'[id]) == Moved(a, b, KeyOf(notes[id]))
    requires forall id | id in notes :: notes'[id] == notes[id].(parentDir := Subst(from, to, notes[id].parentDir))
    ensures InStep(notes', MovedFiles(files, a, b))
    ensures View(notes', MovedFiles(files, a, b)) == RenamedView(View(notes, files), from, to)
  {
    FollowersOwnFiles(notes, files, notes', a, b);
    RenamedInStep(notes, files, dirs, notes', a, b, from, to);
  }

  lemma RenamedInStep(notes: map<string, NoteRow>, files: Files, dirs: set<Path>, notes': map<string, NoteRow>, a: Path,
                      b: Path, from: string, to: string)
    requires EveryRowHasFile(notes, files) && PreviewsMatch(notes, files) && CanMove(files, dirs, a, b)
    requires notes'.Keys == notes.Keys
    requires forall id | id in notes :: KeyOf(notes'[id]) == Moved(a, b, KeyOf(notes[id]))
    requires forall id | id in notes :: notes'[id] == notes[id].(parentDir := Subst(from, to, notes[id].parentDir))
    ensures var files' := MovedFiles(files, a, b);
      EveryRowHasFile(notes', files') && PreviewsMatch(notes', files')
        && View(notes', files') == RenamedView(View(notes, files), from, to)
  {
    MovedContent(files, dirs, a, b);
    FollowersHaveFiles(notes, files, notes', MovedFiles(files, a, b), a, b);
    RenamedShows(notes, files, notes', MovedFiles(files, a, b), from, to);
  }

  lemma MovedContent(files: Files, dirs: set<Path>, a: Path, b: Path)
    requires CanMove(files, dirs, a, b)
    ensures forall p | p in files ::
      Moved(a, b, p) in MovedFiles(files, a, b) && MovedFiles(files, a, b)[Moved(a, b, p)] == files[p]
  {
    forall p | p in files
      ensures Moved(a, b, p) in MovedFiles(files, a, b) && MovedFiles(files, a, b)[Moved(a, b, p)] == files[p]
    {
      MovedFileAt(files, dirs, a, b, p);
    }
  }

  lemma RenamedShows(notes: map<string, NoteRow>, files: Files, notes': map<string, NoteRow>, files': Files,
                     from: string, to: string)
    requires EveryRowHasFile(notes, files) && EveryRowHasFile(notes', files') && notes'.Keys == notes.Keys
    requires forall id | id in notes :: notes'[id] == notes[id].(parentDir := Subst(from, to, notes[id].parentDir))
    requires forall id | id in notes :: files'[KeyOf(notes'[id])] == files[KeyOf(notes[id])]
    ensures View(notes', files') == RenamedView(View(notes, files), from, to)
  {
    forall id | id in notes ensures KeyOf(notes[id]) in files && KeyOf(notes'[id]) in files' {}
  }

  /** The last component of a note's path gives its id. */
  lemma KeyNamesId(row: NoteRow, other: NoteRow)
    requires |row.id| == |other.id| == 36
    requires KeyOf(row)[|KeyOf(row)| - 1] == KeyOf(other)[|KeyOf(other)| - 1]
    ensures row.id == other.id
  {
    var f, g := NoteFile(row.title, row.id), NoteFile(other.title, other.id);
    assert f == g;
    assert f[|f| - 39..|f| - 3] == row.id && g[|g| - 39..|g| - 3] == other.id;
  }

  /** A renamed row that finds a file finds its own. */
  lemma FoundIsOwn(notes: map<string, NoteRow>, files: Files, from: string, to: string, id: string)
    requires forall k | k in notes :: notes[k].id == k && |k| == 36
    requires NoOrphans(notes, files) && Components(from) !in files && id in notes
    requires KeyOf(D.RenamedNotes(notes, from, to)[id]) in MovedFiles(files, Components(from), Components(to))
    ensures Follows(notes, from, to, id)
  {
    var row := D.RenamedNotes(notes, from, to)[id];
    var p := MovedFileFrom(files, Components(from), Components(to), KeyOf(row));
    var other :| other in notes && KeyOf(notes[other]) == p;
    MovedKeepsId(notes[other], row, Components(from), Components(to));
  }

  /** Moving a note's path keeps its id. */
  lemma MovedKeepsId(row: NoteRow, found: NoteRow, a: Path, b: Path)
    requires |row.id| == |found.id| == 36 && KeyOf(row) != a && KeyOf(found) == Moved(a, b, KeyOf(row))
    ensures found.id == row.id
  {
    MovedKey(a, b, Components(row.parentDir), NoteFile(row.title, row.id));
    KeyNamesId(found, row);
  }

  /** Exactly then: from consistent stores, the rename leaves every row its file if and only if every
      stored directory is one that `Exact` admits. */
  lemma RenameKeepsFilesIff(notes: map<string, NoteRow>, files: Files, dirs: set<Path>, from: string, newName: string)
    requires Consistent(notes, files) && FolderPath(from) && GoodComponent(newName)
    requires CanMove(files, dirs, Components(from), Components(Sibling(from, newName)))
    ensures var to := Sibling(from, newName);
      var notes', files' := D.RenamedNotes(notes, from, to), MovedFiles(files, Components(from), Components(to));
      EveryRowHasFile(notes', files') <==> AllExact(notes, from, to)
  {
    var to := Sibling(from, newName);
    var notes', files' := D.RenamedNotes(notes, from, to), MovedFiles(files, Components(from), Components(to));
    AllFollow(notes, files, dirs, from, newName);
    if AllExact(notes, from, to) {
      RenameCommutes(notes, files, dirs, from, newName);
    }
    if EveryRowHasFile(notes', files') {
      forall id | id in notes ensures Exact(from, to, notes[id].parentDir) {
        assert id in notes';
        FoundIsOwn(notes, files, from, to, id);
      }
    }
  }

  /** Renaming there and back, both times exactly, is substituting there and back. */
  lemma RenamedThereAndBack(notes: map<string, NoteRow>, from: string, newName: string, name: string)
    requires RowsOk(notes) && FolderPath(from) && GoodComponent(newName)
    requires Components(from) != [] && name == Components(from)[|Components(from)| - 1]
    requires var to := Sibling(from, newName);
      AllExact(notes, from, to) && AllExact(D.RenamedNotes(notes, from, to), to, from)
    ensures var to := Sibling(from, newName); var back := D.RenamedNotes(D.RenamedNotes(notes, from, to), to, from);
      forall id | id in notes ::
        id in back && back[id] == notes[id].(parentDir := Subst(to, from, Subst(from, to, notes[id].parentDir)))
  {
    var to := Sibling(from, newName);
    RenamedRowsOk(notes, from, newName);
    SiblingBack(from, newName, name);
    SiblingPaths(from, newName);
    RenamedRowsOk(D.RenamedNotes(notes, from, to), to, name);
  }

  /** Renaming there and back restores the whole table if and only if each of its directories is one that
      `Restored` names. */
  lemma RenameTableBackIff(notes: map<string, NoteRow>, from: string, newName: string)
    requires RowsOk(notes) && FolderPath(from) && GoodComponent(newName)
    ensures var to := Sibling(from, newName);
      D.RenamedNotes(D.RenamedNotes(notes, from, to), to, from) == notes
      <==> forall id | id in notes :: Restored(from, to, notes[id].parentDir)
  {
    var to := Sibling(from, newName);
    RenamedTwice(notes, from, to);
    RowsBack(notes, D.RenamedNotes(D.RenamedNotes(notes, from, to), to, from), from, newName);
  }

  lemma RenamedTwice(notes: map<string, NoteRow>, from: string, to: string)
    ensures var back := D.RenamedNotes(D.RenamedNotes(notes, from, to), to, from);
      && back.Keys == notes.Keys
      && forall id | id in notes ::
        back[id] == notes[id].(parentDir := TwoPass(to, from, TwoPass(from, to, notes[id].parentDir)))
  {}

  lemma RowsBack(notes: map<string, NoteRow>, back: map<string, NoteRow>, from: string, newName: string)
    requires RowsOk(notes) && FolderPath(from) && GoodComponent(newName) && back.Keys == notes.Keys
    requires var to := Sibling(from, newName);
      forall id | id in notes ::
        back[id] == notes[id].(parentDir := TwoPass(to, from, TwoPass(from, to, notes[id].parentDir)))
    ensures back == notes <==> forall id | id in notes :: Restored(from, Sibling(from, newName), notes[id].parentDir)
  {
    forall id | id in notes
      ensures back[id] == notes[id] <==> Restored(from, Sibling(from, newName), notes[id].parentDir)
    {
      RowBackIff(notes[id], from, newName);
    }
    SameRows(notes, back);
  }

  lemma RowBackIff(row: NoteRow, from: string, newName: string)
    requires RowOk(row) && FolderPath(from) && GoodComponent(newName)
    ensures var to := Sibling(from, newName);
      row.(parentDir := TwoPass(to, from, TwoPass(from, to, row.parentDir))) == row <==>
      Restored(from, to, row.parentDir)
  {
    TwoPassBackIff(from, newName, row.parentDir);
  }

  lemma SameRows(notes: map<string, NoteRow>, back: map<string, NoteRow>)
    requires back.Keys == notes.Keys
    ensures back == notes <==> forall id | id in notes :: back[id] == notes[id]
  {}

  /** Where both renames are exact, that is if and only if no row lay at or below the new path before. */
  lemma RenameTableBack(notes: map<string, NoteRow>, from: string, newName: string)
    requires RowsOk(notes) && FolderPath(from) && GoodComponent(newName)
    requires var to := Sibling(from, newName);
      AllExact(notes, from, to) && AllExact(D.RenamedNotes(notes, from, to), to, from)
    ensures var to := Sibling(from, newName);
      var back := D.RenamedNotes(D.RenamedNotes(notes, from, to), to, from);
      back == notes <==> forall id | id in notes :: Under(from, notes[id].parentDir) || !Under(to, notes[id].parentDir)
  {
    var to := Sibling(from, newName);
    LastGood(from);
    RenamedThereAndBack(notes, from, newName, Components(from)[|Components(from)| - 1]);
    SubstitutedBack(notes, D.RenamedNotes(D.RenamedNotes(notes, from, to), to, from), from, to);
  }

  lemma SubstitutedBack(notes: map<string, NoteRow>, back: map<string, NoteRow>, from: string, to: string)
    requires back.Keys == notes.Keys
    requires forall id | id in notes ::
      back[id] == notes[id].(parentDir := Subst(to, from, Subst(from, to, notes[id].parentDir)))
    ensures back == notes
       <==> forall id | id in notes :: Under(from, notes[id].parentDir) || !Under(to, notes[id].parentDir)
  {
    forall id | id in notes
      ensures back[id] == notes[id] <==> Under(from, notes[id].parentDir) || !Under(to, notes[id].parentDir)
    {
      RenameBack(from, to, notes[id].parentDir);
    }
  }

  // ---- Delete ----

  /** What the folder cascade and the removal of the directory leave of the notes. */
  function ViewOutside(view: map<string, Note>, folder: string): map<string, Note> {
    map id | id in view && !Under(folder, view[id].parentDir) :: view[id]
  }

  /** A row that the cascade keeps lies outside the folder, and so does its file. */
  lemma KeptIsOutside(row: NoteRow, folder: string)
    requires Accepted(row.parentDir) && FolderPath(folder) && KeyOf(row) != Components(folder)
    ensures Components(folder) <= KeyOf(row) <==> Under(folder, row.parentDir)
    ensures Under(folder, row.parentDir) ==> D.DirSelected(folder, row.parentDir)
  {
    var a, dir := Components(folder), Components(row.parentDir);
    UnderIff(folder, row.parentDir);
    SelectsIff(folder + "/", row.parentDir);
    assert KeyOf(row)[..|dir|] == dir;
    assert a <= dir ==> a <= KeyOf(row);
  }

  /** Whatever happens to the directory below the folder, even half a removal, every row the cascade
      leaves has its file, with its content. */
  lemma DeleteKeepsFiles(notes: map<string, NoteRow>, files: Files, dirs: set<Path>, folder: string, files': Files)
    requires RowsOk(notes) && EveryRowHasFile(notes, files) && IsTree(files, dirs) && FolderPath(folder)
    requires Components(folder) in dirs
    requires FilesOutside(files', Components(folder)) == FilesOutside(files, Components(folder))
    ensures EveryRowHasFile(D.NotesOutside(notes, folder), files')
    ensures forall id | id in D.NotesOutside(notes, folder) :: files'[KeyOf(notes[id])] == files[KeyOf(notes[id])]
  {
    forall id | id in D.NotesOutside(notes, folder)
      ensures KeyOf(notes[id]) in files' && files'[KeyOf(notes[id])] == files[KeyOf(notes[id])]
    {
      KeptIsOutside(notes[id], folder);
      assert KeyOf(notes[id]) in FilesOutside(files, Components(folder));
    }
  }

  /** What a caller can check before deleting: no stored directory differs from one below the folder
      only by case. */
  predicate NoCaseVariant(notes: map<string, NoteRow>, folder: string) {
    forall id | id in notes :: D.DirSelected(folder, notes[id].parentDir) ==> Under(folder, notes[id].parentDir)
  }

  lemma DeletedNotes(notes: map<string, NoteRow>, files: Files, dirs: set<Path>, folder: string)
    requires Consistent(notes, files) && IsTree(files, dirs) && FolderPath(folder) && Components(folder) in dirs
    ensures forall id | id in notes ::
      && (Components(folder) <= KeyOf(notes[id]) <==> Under(folder, notes[id].parentDir))
      && (Under(folder, notes[id].parentDir) ==> D.DirSelected(folder, notes[id].parentDir))
  {
    forall id | id in notes
      ensures Components(folder) <= KeyOf(notes[id]) <==> Under(folder, notes[id].parentDir)
      ensures Under(folder, notes[id].parentDir) ==> D.DirSelected(folder, notes[id].parentDir)
    {
      KeptIsOutside(notes[id], folder);
    }
  }

  /** A delete removes exactly the notes below the folder, and leaves no file without a row, if and
      only if there is no case variant. */
  lemma DeleteExactIff(notes: map<string, NoteRow>, files: Files, dirs: set<Path>, folder: string)
    requires Consistent(notes, files) && IsTree(files, dirs) && FolderPath(folder) && Components(folder) in dirs
    ensures var notes', files' := D.NotesOutside(notes, folder), FilesOutside(files, Components(folder));
      && (View(notes', files') == ViewOutside(View(notes, files), folder) <==> NoCaseVariant(notes, folder))
      && (Consistent(notes', files') <==> NoCaseVariant(notes, folder))
  {
    DeletedNotes(notes, files, dirs, folder);
    DeletedView(notes, files, folder);
    DeletedConsistent(notes, files, folder);
  }

  lemma DeletedView(notes: map<string, NoteRow>, files: Files, folder: string)
    requires EveryRowHasFile(notes, files)
    requires forall id | id in notes :: Components(folder) <= KeyOf(notes[id]) <==> Under(folder, notes[id].parentDir)
    requires forall id | id in notes && Under(folder, notes[id].parentDir) :: D.DirSelected(folder, notes[id].parentDir)
    ensures var notes', files' := D.NotesOutside(notes, folder), FilesOutside(files, Components(folder));
      View(notes', files') == ViewOutside(View(notes, files), folder) <==> NoCaseVariant(notes, folder)
  {
    var notes', files' := D.NotesOutside(notes, folder), FilesOutside(files, Components(folder));
    forall id | id in notes ensures KeyOf(notes[id]) in files {}
    forall id | id in notes' ensures KeyOf(notes'[id]) in files' {}
    KeptAgree(notes, View(notes, files), View(notes', files'), folder);
  }

  /** Two restrictions of the same view are equal when they keep the same notes. */
  lemma KeptAgree(notes: map<string, NoteRow>, v: map<string, Note>, v': map<string, Note>, folder: string)
    requires v.Keys == notes.Keys && forall id | id in notes :: v[id].parentDir == notes[id].parentDir
    requires forall id | id in notes && Under(folder, notes[id].parentDir) :: D.DirSelected(folder, notes[id].parentDir)
    requires forall id :: id in v' <==> id in notes && !D.DirSelected(folder, notes[id].parentDir)
    requires forall id | id in v' :: v'[id] == v[id]
    ensures v' == ViewOutside(v, folder) <==> NoCaseVariant(notes, folder)
  {
    if v' == ViewOutside(v, folder) {
      forall id | id in notes && D.DirSelected(folder, notes[id].parentDir) ensures Under(folder, notes[id].parentDir) {
        assert id !in v';
        assert id !in ViewOutside(v, folder);
      }
    }
  }

  lemma DeletedConsistent(notes: map<string, NoteRow>, files: Files, folder: string)
    requires Consistent(notes, files)
    requires forall id | id in notes :: Components(folder) <= KeyOf(notes[id]) <==> Under(folder, notes[id].parentDir)
    requires forall id | id in notes && Under(folder, notes[id].parentDir) :: D.DirSelected(folder, notes[id].parentDir)
    ensures Consistent(D.NotesOutside(notes, folder), FilesOutside(files, Components(folder)))
       <==> NoCaseVariant(notes, folder)
  {
    forall a, b | a in notes && b in notes && a != b
      ensures KeyOf(notes[a]) != KeyOf(notes[b])
    {
      KeysDiffer(notes, a, b);
    }
    assert RowsOk(D.NotesOutside(notes, folder));
    DeletedInStep(notes, files, folder);
  }

  lemma DeletedInStep(notes: map<string, NoteRow>, files: Files, folder: string)
    requires InStep(notes, files)
    requires forall a, b | a in notes && b in notes && a != b :: KeyOf(notes[a]) != KeyOf(notes[b])
    requires forall id | id in notes :: Components(folder) <= KeyOf(notes[id]) <==> Under(folder, notes[id].parentDir)
    requires forall id | id in notes && Under(folder, notes[id].parentDir) :: D.DirSelected(folder, notes[id].parentDir)
    ensures InStep(D.NotesOutside(notes, folder), FilesOutside(files, Components(folder)))
       <==> NoCaseVariant(notes, folder)
  {
    var notes', files' := D.NotesOutside(notes, folder), FilesOutside(files, Components(folder));
    forall id | id in notes' ensures notes'[id] == notes[id] && KeyOf(notes[id]) in files' {}
    forall id | id in notes && D.DirSelected(folder, notes[id].parentDir) && !Under(folder, notes[id].parentDir)
      ensures !NoOrphans(notes', files')
    {
      assert KeyOf(notes[id]) in files';
    }
    if NoCaseVariant(notes, folder) {
      forall p | p in files' ensures exists id :: id in notes' && KeyOf(notes'[id]) == p {
        var id :| id in notes && KeyOf(notes[id]) == p;
        assert id in notes';
      }
    }
  }

  // ---- Task lists ----

  /** The lists whose rename the two passes get right. */
  predicate AllListsExact(lists: map<string, ListRow>, from: string, to: string) {
    forall l | l in lists :: Exact(from, to, lists[l].parentDir)
  }

  /** What a rename should do to the lists. */
  function SubstLists(lists: map<string, ListRow>, from: string, to: string): map<string, ListRow> {
    map l | l in lists :: lists[l].(parentDir := Subst(from, to, lists[l].parentDir))
  }

  /** No list's directory differs from one below the folder only by case. */
  predicate NoListVariant(lists: map<string, ListRow>, folder: string) {
    forall l | l in lists :: D.DirSelected(folder, lists[l].parentDir) ==> Under(folder, lists[l].parentDir)
  }

  /** What a delete should leave of the lists. */
  function ListsLeft(lists: map<string, ListRow>, folder: string): map<string, ListRow> {
    map l | l in lists && !Under(folder, lists[l].parentDir) :: lists[l]
  }

  /** A rename moves exactly the lists below the folder if and only if `Exact` admits every list. */
  lemma RenamedListsIff(lists: map<string, ListRow>, from: string, newName: string)
    requires FolderPath(from) && GoodComponent(newName) && forall l | l in lists :: Accepted(lists[l].parentDir)
    ensures var to := Sibling(from, newName);
      D.RenamedLists(lists, from, to) == SubstLists(lists, from, to) <==> AllListsExact(lists, from, to)
  {
    var to := Sibling(from, newName);
    var renamed, expected := D.RenamedLists(lists, from, to), SubstLists(lists, from, to);
    forall l | l in lists ensures renamed[l] == expected[l] <==> Exact(from, to, lists[l].parentDir) {
      TwoPassIff(from, newName, lists[l].parentDir);
    }
  }

  lemma UnderIsSelected(folder: string, dir: string)
    requires Under(folder, dir)
    ensures D.DirSelected(folder, dir)
  {
    SelectsIff(folder + "/", dir);
  }

  /** A delete removes exactly the lists below the folder if and only if there is no case variant. */
  lemma DeletedListsIff(lists: map<string, ListRow>, folder: string)
    ensures D.ListsOutside(lists, folder) == ListsLeft(lists, folder) <==> NoListVariant(lists, folder)
  {
    var kept, expected := D.ListsOutside(lists, folder), ListsLeft(lists, folder);
    forall l | l in lists && Under(folder, lists[l].parentDir) ensures D.DirSelected(folder, lists[l].parentDir) {
      UnderIsSelected(folder, lists[l].parentDir);
    }
    if kept == expected {
      forall l | l in lists && D.DirSelected(folder, lists[l].parentDir) ensures Under(folder, lists[l].parentDir) {
        assert l !in kept;
        assert l !in expected;
      }
    }
  }

  /** Deleting "Work" deletes a list that lies in "work/x". */
  lemma CaseVariantDeleted(list: ListRow)
    requires list.parentDir == "work/x"
    ensures D.ListsOutside(map[list.id := list], "Work") == map[]
    ensures ListsLeft(map[list.id := list], "Work") == map[list.id := list]
  {
    var prefix, dir := "Work/", "work/x";
    assert "Work" + "/" == prefix;
    assert SameUpToCase(prefix, dir[..5]);
    SelectsIff(prefix, dir);
    assert dir[0] != prefix[0];
  }
}
