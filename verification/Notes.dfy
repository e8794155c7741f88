/** The note service: each handler is a sequence of fallible disk and database steps with
    rollbacks. A row names its file by `NoteKey`. */
module Notes {
  import opened Strings
  import opened Rows
  import opened OrderBy
  import opened Paths
  import opened NotePaths
  import opened Disk
  import D = Database

  const MAX_NOTE_CONTENT_BYTES := 0x10_0000

  /** `pb.Note`, but for its time stamp. */
  datatype Note = Note(parentDir: string, title: string, content: string)

  /** The beginning of a note, at most 100 characters of it, and all of a shorter one. */
  ghost predicate IsPreview(preview: string, content: string) {
    preview <= content && |preview| == if |content| < 100 then |content| else 100
  }

  /** `computePreview`: the first 100 characters. */
  function Preview(content: string): (r: string)
    ensures IsPreview(r, content)
  {
    if |content| > 100 then content[..100] else content
  }

  function KeyOf(row: NoteRow): Path { NoteKey(row.parentDir, row.title, row.id) }

  predicate RowOk(row: NoteRow) { IsUuidV4(row.id) && Accepted(row.parentDir) && ValidName(row.title) }

  /** Every row was written by a handler: validated directory and title, its id as the key. */
  ghost predicate RowsOk(notes: map<string, NoteRow>) {
    forall id | id in notes :: notes[id].id == id && RowOk(notes[id])
  }

  ghost predicate EveryRowHasFile(notes: map<string, NoteRow>, files: Files) {
    forall id | id in notes :: KeyOf(notes[id]) in files
  }

  /** What the service shows: each row that has its file, with the file's content. */
  function View(notes: map<string, NoteRow>, files: Files): map<string, Note> {
    map id | id in notes && KeyOf(notes[id]) in files ::
      Note(notes[id].parentDir, notes[id].title, files[KeyOf(notes[id])])
  }

  ghost predicate PreviewsMatch(notes: map<string, NoteRow>, files: Files) {
    forall id | id in notes && KeyOf(notes[id]) in files :: IsPreview(notes[id].preview, files[KeyOf(notes[id])])
  }

  // ---- Keys never collide ----

  lemma NoteKeyNotTemp(parentDir: string, title: string, id: string, dir: Path)
    ensures NoteKey(parentDir, title, id) != [] && !IsTempIn(dir, NoteKey(parentDir, title, id))
    ensures Parent(NoteKey(parentDir, title, id)) == Components(parentDir)
  {
    var key := NoteKey(parentDir, title, id);
    var file := NoteFile(title, id);
    assert file[|file| - 1] == 'd' && key[|key| - 1] == file;
  }

  /** The files of all notes but `id` are the same in both maps. */
  ghost predicate SameElsewhere(notes: map<string, NoteRow>, id: string, f: Files, g: Files) {
    forall other | other in notes && other != id ::
      var k := KeyOf(notes[other]); (k in f <==> k in g) && (k in f ==> f[k] == g[k])
  }

  /** Two file maps that agree, but for temporary files and files of note `id`, agree on the other notes. */
  lemma OthersKept(notes: map<string, NoteRow>, id: string, dir: Path, f: Files, g: Files, keys: set<Path>)
    requires RowsOk(notes) && IsUuidV4(id)
    requires forall k | k in keys :: exists d, t :: Accepted(d) && k == NoteKey(d, t, id)
    requires forall p | !IsTempIn(dir, p) && p !in keys :: (p in f <==> p in g) && (p in f ==> f[p] == g[p])
    ensures SameElsewhere(notes, id, f, g)
  {
    forall other | other in notes && other != id
      ensures var k := KeyOf(notes[other]); (k in f <==> k in g) && (k in f ==> f[k] == g[k])
    {
      var row := notes[other];
      NoteKeyNotTemp(row.parentDir, row.title, row.id, dir);
      forall k | k in keys ensures k != KeyOf(row) {
        var d, t :| Accepted(d) && k == NoteKey(d, t, id);
        NoteKeyInjective(row.parentDir, row.title, row.id, d, t, id);
      }
    }
  }

  lemma KeyNotElsewhere(notes: map<string, NoteRow>, id: string, parentDir: string, title: string, f: Files, g: Files)
    requires RowsOk(notes) && IsUuidV4(id) && Accepted(parentDir)
    requires forall p | p != NoteKey(parentDir, title, id) :: (p in f <==> p in g) && (p in f ==> f[p] == g[p])
    ensures SameElsewhere(notes, id, f, g)
  {
    OthersKept(notes, id, [], f, g, {NoteKey(parentDir, title, id)});
  }

  /** Touching two paths of one note leaves the other notes alone. */
  lemma TouchesOnly(notes: map<string, NoteRow>, id: string, d0: string, t0: string, d1: string, t1: string, f: Files,
                    g: Files)
    requires RowsOk(notes) && IsUuidV4(id) && Accepted(d0) && Accepted(d1)
    requires OnlyTouches(Parent(NoteKey(d0, t0, id)), f, g, NoteKey(d0, t0, id), NoteKey(d1, t1, id))
    ensures SameElsewhere(notes, id, f, g)
  {
    OthersKept(notes, id, Parent(NoteKey(d0, t0, id)), f, g, {NoteKey(d0, t0, id), NoteKey(d1, t1, id)});
  }

  /** The files of the other notes are the same now and at every point since `from`. */
  ghost predicate OthersApart(hs: seq<Files>, from: nat, now: Files, notes: map<string, NoteRow>, id: string,
                              files: Files) {
    SameElsewhere(notes, id, now, files) && forall i | from <= i < |hs| :: SameElsewhere(notes, id, hs[i], files)
  }

  // ---- Create (notes/create_note.go) ----

  datatype CreateReply =
    | NoteCreated(note: Note)
    | InvalidCreate
    | NoDirectory
    | AlreadyExists
    | FileNotWritten
    | NotStatted
    | NotInserted(rolledBack: bool)

  /** What `CreateNote` accepts and finds in place. */
  ghost predicate CanCreate(files: Files, dirs: set<Path>, parentDir: string, title: string, content: string,
                            id: string) {
    && Accepted(parentDir) && ValidName(title) && ByteLen(content) <= MAX_NOTE_CONTENT_BYTES
    && Components(parentDir) in dirs
    && NoteKey(parentDir, title, id) !in files && NoteKey(parentDir, title, id) !in dirs
  }

  /** Only two paths and temporary files differ. */
  ghost predicate OnlyTouches(dir: Path, h: Files, g: Files, k0: Path, k1: Path) {
    forall p | !IsTempIn(dir, p) && p !in {k0, k1} :: (p in h <==> p in g) && (p in h ==> h[p] == g[p])
  }

  /** The rest of `CreateNote`: stat the new file, insert the row, and remove the file if that fails. */
  method PersistNote(disk: Disk, db: D.Database, key: Path, row: NoteRow, content: string, ghost before: Files)
    returns (r: CreateReply)
    requires disk.Valid() && row.id !in db.notes && key !in before && disk.files == before[key := content]
    modifies disk`files, disk`history, db`notes
    ensures disk.Valid() && (r.NoteCreated? || r.NotStatted? || r.NotInserted?)
    ensures r.NoteCreated? ==>
      r.note == Note(row.parentDir, row.title, content) && db.notes == old(db.notes)[row.id := row]
    ensures !r.NoteCreated? ==> db.notes == old(db.notes)
    ensures if r.NotInserted?
        then disk.history == old(disk.history) + [disk.files] else disk.history == old(disk.history)
    ensures disk.files == if r.NotInserted? && r.rolledBack then before else old(disk.files)
    ensures (!disk.faulty ==> !r.NotStatted?) && (!db.faulty ==> !r.NotInserted?)
  {
    var st := disk.Stat(key);
    if !st.IsFile? { return NotStatted; }
    var inserted := db.InsertNote(row);
    if inserted { return NoteCreated(Note(row.parentDir, row.title, content)); }
    var removed := disk.Remove(key);
    r := NotInserted(removed.Ok?);
  }

  /** `CreateNote` once the request is accepted: only the new file is touched, at any point. */
  method CreateAccepted(disk: Disk, db: D.Database, key: Path, row: NoteRow, content: string) returns (r: CreateReply)
    requires disk.Valid() && row.id !in db.notes
    requires key != [] && !IsTempIn(Parent(key), key) && Parent(key) in disk.dirs
    modifies disk`files, disk`history, db`notes
    ensures disk.Valid() && old(disk.history) <= disk.history
    ensures !r.InvalidCreate? && !r.NoDirectory?
    ensures r.NoteCreated? ==>
      r.note == Note(row.parentDir, row.title, content) && db.notes == old(db.notes)[row.id := row]
    ensures r.NoteCreated? ==>
      key !in old(disk.files) && key !in disk.dirs && disk.files == old(disk.files)[key := content]
    ensures !r.NoteCreated? ==> db.notes == old(db.notes)
    ensures r.AlreadyExists? || (r.NotInserted? && r.rolledBack) ==> disk.files == old(disk.files)
    ensures OnlyTouches(Parent(key), disk.files, old(disk.files), key, key)
    ensures forall i | |old(disk.history)| <= i < |disk.history| ::
      OnlyTouches(Parent(key), disk.history[i], old(disk.files), key, key)
    ensures !disk.faulty ==> !r.FileNotWritten? && !r.NotStatted?
    ensures !db.faulty ==> !r.NotInserted?
    ensures r.AlreadyExists? ==> key in old(disk.files) || key in disk.dirs
    ensures !disk.faulty ==> (r.AlreadyExists? <==> key in old(disk.files) || key in disk.dirs)
  {
    var written := disk.CreateExclusive(key, content);
    match written {
      case Exists => return AlreadyExists;
      case CreateFailed => return FileNotWritten;
      case SentinelLeft => return FileNotWritten;
      case Created =>
    }
    r := PersistNote(disk, db, key, row, content, old(disk.files));
  }

  lemma RowsOkPut(notes: map<string, NoteRow>, row: NoteRow)
    requires RowsOk(notes) && RowOk(row)
    ensures RowsOk(notes[row.id := row])
  {}

  /** `CreateNote`. The id is freshly drawn, so no row has it. A success adds exactly this note; a
      failure adds no row and at worst leaves a file that belongs to no row; at every point the
      other notes are intact. */
  method CreateNote(disk: Disk, db: D.Database, parentDir: string, title: string, content: string, id: string, now: int)
    returns (r: CreateReply)
    requires disk.Valid() && RowsOk(db.notes) && IsUuidV4(id) && id !in db.notes
    modifies disk`files, disk`history, db`notes
    ensures disk.Valid() && RowsOk(db.notes)
    ensures r.NoteCreated? ==>
      r.note == Note(parentDir, title, content) && CanCreate(old(disk.files), disk.dirs, parentDir, title, content, id)
    ensures r.NoteCreated? ==>
      db.notes == old(db.notes)[id := NoteRow(id, title, parentDir, Preview(content), now, now)]
    ensures r.NoteCreated? ==>
      var p := db.notes[id].preview; p <= content && |p| == if |content| < 100 then |content| else 100
    ensures r.NoteCreated? ==> disk.files == old(disk.files)[NoteKey(parentDir, title, id) := content]
    ensures !r.NoteCreated? ==> db.notes == old(db.notes)
    ensures r.InvalidCreate? || r.NoDirectory? || r.AlreadyExists? || (r.NotInserted? && r.rolledBack) ==>
      disk.files == old(disk.files)
    ensures old(disk.history) <= disk.history
    ensures OthersApart(disk.history, |old(disk.history)|, disk.files, old(db.notes), id, old(disk.files))
    ensures !disk.faulty && !db.faulty && !r.NoteCreated? ==> disk.files == old(disk.files)
    ensures !disk.faulty && !db.faulty ==>
      (r.NoteCreated? <==> CanCreate(old(disk.files), disk.dirs, parentDir, title, content, id))
    ensures r.InvalidCreate? <==> !(Accepted(parentDir) && ValidName(title) && ByteLen(content) <= 1024 * 1024)
    ensures !disk.faulty ==> (r.NoDirectory? <==> !r.InvalidCreate? && Components(parentDir) !in disk.dirs)
    ensures r.AlreadyExists? ==>
      NoteKey(parentDir, title, id) in old(disk.files) || NoteKey(parentDir, title, id) in disk.dirs
    ensures !disk.faulty ==> (r.AlreadyExists? <==>
      && !r.InvalidCreate? && Components(parentDir) in disk.dirs
      && (NoteKey(parentDir, title, id) in old(disk.files) || NoteKey(parentDir, title, id) in disk.dirs))
    ensures (!disk.faulty ==> !r.FileNotWritten? && !r.NotStatted?) && (!db.faulty ==> !r.NotInserted?)
  {
    if !Accepted(parentDir) || !ValidName(title) || ByteLen(content) > MAX_NOTE_CONTENT_BYTES { return InvalidCreate; }
    var isDir := RequireDir(disk, Components(parentDir));
    if !isDir { return NoDirectory; }
    var key, row := NoteKey(parentDir, title, id), NoteRow(id, title, parentDir, Preview(content), now, now);
    NoteKeyNotTemp(parentDir, title, id, Parent(key));
    RowsOkPut(db.notes, row);
    r := CreateAccepted(disk, db, key, row, content);
    TouchesOnly(old(db.notes), id, parentDir, title, parentDir, title, disk.files, old(disk.files));
    forall i | |old(disk.history)| <= i < |disk.history|
      ensures SameElsewhere(old(db.notes), id, disk.history[i], old(disk.files))
    {
      TouchesOnly(old(db.notes), id, parentDir, title, parentDir, title, disk.history[i], old(disk.files));
    }
  }

  // ---- Update (notes/update_note.go) ----

  /** The old or the new path holds entirely the old or entirely the new content. */
  ghost predicate NoteSafe(h: Files, k0: Path, k1: Path, before: string, after: string) {
    (k0 in h && (h[k0] == before || h[k0] == after)) || (k1 in h && (h[k1] == before || h[k1] == after))
  }

  /** Any point of an update of a note whose file was at `k0`. */
  ghost predicate Midway(h: Files, files: Files, k0: Path, k1: Path, content: string)
    requires k0 in files
  {
    NoteSafe(h, k0, k1, files[k0], content) && OnlyTouches(Parent(k0), h, files, k0, k1)
  }

  /** `Midway` now and at every point since `from`. */
  ghost predicate AlwaysMidway(hs: seq<Files>, from: nat, now: Files, files: Files, k0: Path, k1: Path, content: string)
    requires k0 in files
  {
    Midway(now, files, k0, k1, content) && forall i | from <= i < |hs| :: Midway(hs[i], files, k0, k1, content)
  }

  datatype FileStep = Replaced | Missing | Unstatted | Unmoved | Unwritten(rolledBack: bool)

  lemma WriteMidway(h: Files, files: Files, moved: Files, k0: Path, k1: Path, content: string)
    requires k0 in files && moved == (files - {k0})[k1 := files[k0]]
    requires !IsTempIn(Parent(k0), k1)
    requires Agree(Parent(k0), h, moved) || Agree(Parent(k0), h, moved[k1 := content])
    ensures Midway(h, files, k0, k1, content)
  {
    assert k1 in h && (h[k1] == files[k0] || h[k1] == content);
  }

  /** Write the moved file; if that fails, move it back. */
  method WriteMoved(disk: Disk, k0: Path, k1: Path, content: string, ghost before: Files) returns (r: FileStep)
    requires disk.Valid() && k0 != [] && k1 != [] && Parent(k0) == Parent(k1) && k0 !in disk.dirs
    requires Parent(k0) in disk.dirs
    requires !IsTempIn(Parent(k0), k0) && !IsTempIn(Parent(k0), k1)
    requires k0 in before && disk.files == (before - {k0})[k1 := before[k0]]
    modifies disk`files, disk`history
    ensures disk.Valid() && old(disk.history) <= disk.history
    ensures r.Replaced? || r.Unwritten?
    ensures r.Replaced? ==> disk.files == (before - {k0})[k1 := content]
    ensures r.Unwritten? ==> (k0 in disk.files <==> k0 == k1 || r.rolledBack)
    ensures r.Unwritten? && k0 in disk.files ==> disk.files[k0] == before[k0]
    ensures AlwaysMidway(disk.history, |old(disk.history)|, disk.files, before, k0, k1, content)
    ensures !disk.faulty ==> r.Replaced?
  {
    ghost var moved, start := disk.files, |disk.history|;
    assert k1 in disk.files && k1 !in disk.dirs;
    var w := disk.AtomicWrite(k1, content, false);
    ghost var written := disk.history;
    WriteMidway(disk.files, before, moved, k0, k1, content);
    forall i | start <= i < |written| ensures Midway(written[i], before, k0, k1, content) {
      WriteMidway(written[i], before, moved, k0, k1, content);
    }
    if w.Written? { return Replaced; }
    assert k1 in disk.files && disk.files[k1] == before[k0];
    var rolledBack := Result.Failed;
    if k1 != k0 {
      rolledBack := disk.Rename(k1, k0);
    }
    r := Unwritten(rolledBack.Ok?);
  }

  /** The rename, if the path changes. */
  method MoveAside(disk: Disk, k0: Path, k1: Path) returns (moved: bool)
    requires disk.Valid() && k0 in disk.files && Parent(k0) == Parent(k1)
    modifies disk`files, disk`history
    ensures disk.Valid() && old(disk.history) <= disk.history
    ensures moved ==> disk.files == (old(disk.files) - {k0})[k1 := old(disk.files)[k0]]
    ensures !moved ==> disk.files == old(disk.files)
    ensures forall i | |old(disk.history)| <= i < |disk.history| :: disk.history[i] == disk.files
    ensures !disk.faulty ==> (moved <==> k0 == k1 || k1 !in disk.dirs)
    ensures k0 != k1 && k1 in disk.dirs ==> !moved
  {
    if k1 == k0 { return true; }
    var renamed := disk.Rename(k0, k1);
    moved := renamed.Ok?;
  }

  /** The disk steps: check the old file, rename it if the path changes, write the new content, and
      rename back if the write fails. */
  method ReplaceFile(disk: Disk, k0: Path, k1: Path, content: string) returns (r: FileStep)
    requires disk.Valid() && k0 != [] && k1 != [] && Parent(k0) == Parent(k1) && k0 !in disk.dirs
    requires !IsTempIn(Parent(k0), k0) && !IsTempIn(Parent(k0), k1)
    modifies disk`files, disk`history
    ensures disk.Valid() && old(disk.history) <= disk.history
    ensures r.Replaced? ==>
      k0 in old(disk.files) && k1 !in disk.dirs && disk.files == (old(disk.files) - {k0})[k1 := content]
    ensures r.Missing? || r.Unstatted? || r.Unmoved? ==> disk.files == old(disk.files)
    ensures r.Missing? ==> k0 !in disk.files
    ensures r.Unwritten? ==> k0 in old(disk.files) && (k0 in disk.files <==> k0 == k1 || r.rolledBack)
    ensures r.Unwritten? && k0 in disk.files ==> disk.files[k0] == old(disk.files)[k0]
    ensures k0 !in old(disk.files) ==> disk.history == old(disk.history)
    ensures k0 in old(disk.files) ==>
      AlwaysMidway(disk.history, |old(disk.history)|, disk.files, old(disk.files), k0, k1, content)
    ensures !disk.faulty ==> !r.Unwritten? && !r.Unstatted? && (r.Missing? <==> k0 !in old(disk.files))
    ensures !disk.faulty ==> (r.Replaced? <==> k0 in old(disk.files) && k1 !in disk.dirs)
  {
    var st := disk.Stat(k0);
    if st.Absent? { return Missing; }
    if !st.IsFile? { return Unstatted; }
    assert Parent(k0) in disk.dirs;
    ghost var before := disk.files;
    var moved := MoveAside(disk, k0, k1);
    if !moved { return Unmoved; }
    ghost var sofar := disk.history;
    r := WriteMoved(disk, k0, k1, content, before);
    forall i | |old(disk.history)| <= i < |sofar| ensures Midway(disk.history[i], before, k0, k1, content) {
      assert disk.history[i] == sofar[i];
      WriteMidway(sofar[i], before, (before - {k0})[k1 := before[k0]], k0, k1, content);
    }
  }

  datatype UpdateReply =
    | NoteUpdated(note: Note)
    | InvalidUpdate
    | NoSuchNote
    | QueryFailed
    | NotReplaced(step: FileStep)
    | NotStattedAfter
    | RowGone
    | RowNotUpdated(rolledBack: bool)

  /** The replies after which a renamed file is left at its new path while the row keeps the old title. */
  predicate LeavesFileAway(r: UpdateReply) {
    r.NotStattedAfter? || (r.NotReplaced? && r.step.Unwritten? && !r.step.rolledBack)
      || (r.RowNotUpdated? && !r.rolledBack)
  }

  /** The rest of `UpdateNote`: stat the file, update the row, and rename back if that fails. Only an
      error other than "not found" is rolled back; a failed stat and a missing row are not. */
  method UpdateRow(disk: Disk, db: D.Database, row: NoteRow, title: string, content: string, k0: Path, k1: Path,
                   now: int)
    returns (r: UpdateReply)
    requires disk.Valid()
    requires k0 != [] && k1 != [] && Parent(k0) == Parent(k1) && k0 !in disk.dirs
    requires k1 in disk.files && disk.files[k1] == content && (k0 in disk.files ==> k0 == k1)
    modifies disk`files, disk`history, db`notes
    ensures disk.Valid() && old(disk.history) <= disk.history
    ensures r.NoteUpdated? || r.NotStattedAfter? || r.RowGone? || r.RowNotUpdated?
    ensures r.NoteUpdated? ==> r.note == Note(row.parentDir, title, content) && row.id in old(db.notes)
    ensures r.NoteUpdated? ==>
      db.notes == old(db.notes)[row.id :=
        old(db.notes)[row.id].(title := title, preview := Preview(content), updatedAt := now)]
    ensures r.NoteUpdated? || r.RowGone? || r.NotStattedAfter? ==> disk.files == old(disk.files)
    ensures r.RowGone? ==> row.id !in db.notes
    ensures !r.NoteUpdated? ==> db.notes == old(db.notes)
    ensures !r.NoteUpdated? && !r.RowGone? ==> (k0 in disk.files <==> k0 == k1 || !LeavesFileAway(r))
    ensures disk.files ==
      if r.RowNotUpdated? && k0 != k1 && r.rolledBack then (old(disk.files) - {k1})[k0 := content] else old(disk.files)
    ensures forall i | |old(disk.history)| <= i < |disk.history| :: disk.history[i] == disk.files
    ensures !disk.faulty && !db.faulty ==>
      (r.NoteUpdated? <==> row.id in old(db.notes)) && (r.NoteUpdated? || r.RowGone?)
    ensures (!disk.faulty ==> !r.NotStattedAfter?) && (!db.faulty ==> !r.RowNotUpdated?)
  {
    var st := disk.Stat(k1);
    if !st.IsFile? { return NotStattedAfter; }
    var updated := db.UpdateNote(row.id, title, Preview(content), now);
    match updated {
      case Done(_) => return NoteUpdated(Note(row.parentDir, title, content));
      case NotFound => return RowGone;
      case Failed =>
    }
    var renamed := Result.Failed;
    if k1 != k0 { renamed := disk.Rename(k1, k0); }
    r := RowNotUpdated(renamed.Ok?);
  }

  /** The note's old and new paths lie in one directory and are no temporary files. */
  ghost predicate KeysOk(k0: Path, k1: Path) {
    k0 != [] && k1 != [] && Parent(k0) == Parent(k1) && !IsTempIn(Parent(k0), k0) && !IsTempIn(Parent(k0), k1)
  }

  lemma UpdateKeys(row: NoteRow, title: string)
    requires RowOk(row)
    ensures KeysOk(KeyOf(row), NoteKey(row.parentDir, title, row.id))
    ensures KeyOf(row) == NoteKey(row.parentDir, title, row.id) <==> row.title == title
  {
    NoteKeyNotTemp(row.parentDir, row.title, row.id, Components(row.parentDir));
    NoteKeyNotTemp(row.parentDir, title, row.id, Components(row.parentDir));
    NoteKeyInjective(row.parentDir, row.title, row.id, row.parentDir, title, row.id);
  }

  /** What `UpdateNote` accepts and finds in place. */
  ghost predicate CanUpdate(notes: map<string, NoteRow>, files: Files, dirs: set<Path>, id: string, title: string,
                            content: string) {
    && IsUuidV4(id) && ValidName(title) && ByteLen(content) <= MAX_NOTE_CONTENT_BYTES
    && id in notes && KeyOf(notes[id]) in files && NoteKey(notes[id].parentDir, title, id) !in dirs
  }

  /** An update in progress leaves the other notes alone. */
  lemma MidwayKeepsOthers(notes: map<string, NoteRow>, id: string, title: string, content: string, hs: seq<Files>,
                          from: nat, now: Files, files: Files)
    requires RowsOk(notes) && id in notes && KeyOf(notes[id]) in files
    requires AlwaysMidway(hs, from, now, files, KeyOf(notes[id]), NoteKey(notes[id].parentDir, title, id), content)
    ensures OthersApart(hs, from, now, notes, id, files)
  {
    var row := notes[id];
    TouchesOnly(notes, id, row.parentDir, row.title, row.parentDir, title, now, files);
    forall i | from <= i < |hs| ensures SameElsewhere(notes, id, hs[i], files) {
      TouchesOnly(notes, id, row.parentDir, row.title, row.parentDir, title, hs[i], files);
    }
  }

  /** `UpdateNote`, under any fault. While it runs, and if the process stops at any point, the note is
      at its old or new path, entirely old or entirely new, and no other note is touched. On return the
      row's file is there, except after the replies `LeavesFileAway` names for a changed title. */
  method UpdateNote(disk: Disk, db: D.Database, id: string, title: string, content: string, now: int)
    returns (r: UpdateReply)
    requires disk.Valid() && RowsOk(db.notes)
    requires id in db.notes ==> KeyOf(db.notes[id]) !in disk.dirs
    modifies disk`files, disk`history, db`notes
    ensures disk.Valid() && old(disk.history) <= disk.history
    ensures r.NoteUpdated? ==> CanUpdate(old(db.notes), old(disk.files), disk.dirs, id, title, content)
    ensures r.NoteUpdated? ==> r.note == Note(old(db.notes)[id].parentDir, title, content)
    ensures r.NoteUpdated? ==>
      db.notes == old(db.notes)[id := old(db.notes)[id].(title := title, preview := Preview(content), updatedAt := now)]
    ensures r.NoteUpdated? ==>
      disk.files == (old(disk.files) - {KeyOf(old(db.notes)[id])})[KeyOf(db.notes[id]) := content]
    ensures !r.NoteUpdated? ==> db.notes == old(db.notes)
    ensures id !in old(db.notes) || KeyOf(old(db.notes)[id]) !in old(disk.files) ==>
      disk.files == old(disk.files) && disk.history == old(disk.history)
    ensures id in old(db.notes) && KeyOf(old(db.notes)[id]) in old(disk.files) ==>
      (KeyOf(db.notes[id]) in disk.files <==> title == old(db.notes)[id].title || !LeavesFileAway(r))
    ensures id in old(db.notes) && KeyOf(old(db.notes)[id]) in old(disk.files) ==>
      AlwaysMidway(disk.history, |old(disk.history)|, disk.files, old(disk.files), KeyOf(old(db.notes)[id]),
          NoteKey(old(db.notes)[id].parentDir, title, id), content)
    ensures id in old(db.notes) && KeyOf(old(db.notes)[id]) in old(disk.files) ==>
      OthersApart(disk.history, |old(disk.history)|, disk.files, old(db.notes), id, old(disk.files))
    ensures !disk.faulty && !db.faulty && !r.NoteUpdated? ==> disk.files == old(disk.files)
    ensures !disk.faulty && !db.faulty ==>
      (r.NoteUpdated? <==> CanUpdate(old(db.notes), old(disk.files), disk.dirs, id, title, content))
    ensures r.NoteUpdated? ==>
      var p := db.notes[id].preview; p <= content && |p| == if |content| < 100 then |content| else 100
    ensures r.InvalidUpdate? <==> !(IsUuidV4(id) && ValidName(title) && ByteLen(content) <= 1024 * 1024)
    ensures r.NoSuchNote? ==> id !in old(db.notes)
    ensures r == NotReplaced(Missing) ==> id in old(db.notes) && KeyOf(old(db.notes)[id]) !in old(disk.files)
    ensures !db.faulty ==> (r.NoSuchNote? <==> !r.InvalidUpdate? && id !in old(db.notes))
    ensures !disk.faulty && !db.faulty ==> (r == NotReplaced(Missing) <==>
      !r.InvalidUpdate? && id in old(db.notes) && KeyOf(old(db.notes)[id]) !in old(disk.files))
    ensures !disk.faulty && !db.faulty ==>
      r.InvalidUpdate? || r.NoSuchNote? || r.NoteUpdated? || r == NotReplaced(Missing) || r == NotReplaced(Unmoved)
  {
    if !IsUuidV4(id) || !ValidName(title) || ByteLen(content) > MAX_NOTE_CONTENT_BYTES { return InvalidUpdate; }
    if id in db.notes { UpdateKeys(db.notes[id], title); }
    r := UpdateValid(disk, db, id, title, content, now);
    if id in old(db.notes) && KeyOf(old(db.notes)[id]) in old(disk.files) {
      MidwayKeepsOthers(old(db.notes), id, title, content, disk.history, |old(disk.history)|, disk.files,
          old(disk.files));
    }
  }

  /** `UpdateNote` once the request is accepted. */
  method UpdateValid(disk: Disk, db: D.Database, id: string, title: string, content: string, now: int)
    returns (r: UpdateReply)
    requires disk.Valid()
    requires id in db.notes ==>
      db.notes[id].id == id && KeyOf(db.notes[id]) !in disk.dirs
        && KeysOk(KeyOf(db.notes[id]), NoteKey(db.notes[id].parentDir, title, id))
    modifies disk`files, disk`history, db`notes
    ensures disk.Valid() && old(disk.history) <= disk.history
    ensures r.NoteUpdated? ==>
      && id in old(db.notes)
      && KeyOf(old(db.notes)[id]) in old(disk.files)
      && NoteKey(old(db.notes)[id].parentDir, title, id) !in disk.dirs
    ensures r.NoteUpdated? ==> r.note == Note(old(db.notes)[id].parentDir, title, content)
    ensures r.NoteUpdated? ==>
      db.notes == old(db.notes)[id := old(db.notes)[id].(title := title, preview := Preview(content), updatedAt := now)]
    ensures r.NoteUpdated? ==>
      disk.files == (old(disk.files) - {KeyOf(old(db.notes)[id])})[KeyOf(db.notes[id]) := content]
    ensures !r.NoteUpdated? ==> db.notes == old(db.notes)
    ensures id !in old(db.notes) || KeyOf(old(db.notes)[id]) !in old(disk.files) ==>
      disk.files == old(disk.files) && disk.history == old(disk.history)
    ensures id in old(db.notes) && KeyOf(old(db.notes)[id]) in old(disk.files) && !r.NoteUpdated? ==>
      (KeyOf(db.notes[id]) in disk.files <==>
        KeyOf(old(db.notes)[id]) == NoteKey(old(db.notes)[id].parentDir, title, id) || !LeavesFileAway(r))
    ensures id in old(db.notes) && KeyOf(old(db.notes)[id]) in old(disk.files) ==>
      AlwaysMidway(disk.history, |old(disk.history)|, disk.files, old(disk.files), KeyOf(old(db.notes)[id]),
          NoteKey(old(db.notes)[id].parentDir, title, id), content)
    ensures !disk.faulty && !db.faulty && !r.NoteUpdated? ==> disk.files == old(disk.files)
    ensures !disk.faulty && !db.faulty ==> (r.NoteUpdated? <==>
      id in old(db.notes) && KeyOf(old(db.notes)[id]) in old(disk.files)
        && NoteKey(old(db.notes)[id].parentDir, title, id) !in disk.dirs)
    ensures !r.InvalidUpdate? && (r.NoSuchNote? ==> id !in old(db.notes))
    ensures r == NotReplaced(Missing) ==> id in old(db.notes) && KeyOf(old(db.notes)[id]) !in old(disk.files)
    ensures !db.faulty ==> (r.NoSuchNote? <==> id !in old(db.notes))
    ensures !disk.faulty && !db.faulty ==>
      (r == NotReplaced(Missing) <==> id in old(db.notes) && KeyOf(old(db.notes)[id]) !in old(disk.files))
    ensures !disk.faulty && !db.faulty ==>
      r.NoSuchNote? || r.NoteUpdated? || r == NotReplaced(Missing) || r == NotReplaced(Unmoved)
  {
    var found := db.GetNote(id);
    match found {
      case NotFound => return NoSuchNote;
      case Failed => return QueryFailed;
      case Done(_) =>
    }
    r := UpdateFound(disk, db, found.value, KeyOf(found.value), NoteKey(found.value.parentDir, title, id), title,
        content, now);
  }

  /** `UpdateNote` once the row is known. */
  method UpdateFound(disk: Disk, db: D.Database, row: NoteRow, k0: Path, k1: Path, title: string, content: string,
                     now: int)
    returns (r: UpdateReply)
    requires disk.Valid() && row.id in db.notes && db.notes[row.id] == row && k0 !in disk.dirs
    requires KeysOk(k0, k1)
    modifies disk`files, disk`history, db`notes
    ensures disk.Valid() && old(disk.history) <= disk.history
    ensures r.NoteUpdated? ==>
      k0 in old(disk.files) && k1 !in disk.dirs && r.note == Note(row.parentDir, title, content)
    ensures r.NoteUpdated? ==>
      db.notes == old(db.notes)[row.id := row.(title := title, preview := Preview(content), updatedAt := now)]
    ensures r.NoteUpdated? ==> disk.files == (old(disk.files) - {k0})[k1 := content]
    ensures !r.NoteUpdated? ==> db.notes == old(db.notes)
    ensures k0 !in old(disk.files) ==> disk.files == old(disk.files) && disk.history == old(disk.history)
    ensures !r.NoteUpdated? && k0 in old(disk.files) ==> (k0 in disk.files <==> k0 == k1 || !LeavesFileAway(r))
    ensures k0 in old(disk.files) ==>
      AlwaysMidway(disk.history, |old(disk.history)|, disk.files, old(disk.files), k0, k1, content)
    ensures !disk.faulty && !db.faulty && !r.NoteUpdated? ==> disk.files == old(disk.files)
    ensures !disk.faulty && !db.faulty ==> (r.NoteUpdated? <==> k0 in old(disk.files) && k1 !in disk.dirs)
    ensures !r.InvalidUpdate? && !r.NoSuchNote? && !r.QueryFailed?
    ensures r == NotReplaced(Missing) ==> k0 !in old(disk.files)
    ensures !disk.faulty && !db.faulty ==> (r == NotReplaced(Missing) <==> k0 !in old(disk.files))
    ensures !disk.faulty && !db.faulty ==> r.NoteUpdated? || r == NotReplaced(Missing) || r == NotReplaced(Unmoved)
  {
    var step := ReplaceFile(disk, k0, k1, content);
    if !step.Replaced? { return NotReplaced(step); }
    r := UpdateRow(disk, db, row, title, content, k0, k1, now);
    assert Midway(disk.files, old(disk.files), k0, k1, content);
  }

  // ---- Delete (notes/delete_note.go) ----

  datatype DeleteReply = NoteDeleted | InvalidDelete | NothingToDelete | RowNotRead | FileNotRemoved | RowNotDeleted

  /** `DeleteNote`: first the file, then the row. A missing file is no error. Only a database failure
      after the file is gone leaves a row without its file. */
  method DeleteNote(disk: Disk, db: D.Database, id: string) returns (r: DeleteReply)
    requires disk.Valid() && RowsOk(db.notes)
    requires id in db.notes ==> KeyOf(db.notes[id]) !in disk.dirs
    modifies disk`files, disk`history, db`notes
    ensures disk.Valid() && RowsOk(db.notes) && old(disk.history) <= disk.history
    ensures r.NoteDeleted? || r.RowNotDeleted? ==>
      id in old(db.notes) && disk.files == old(disk.files) - {KeyOf(old(db.notes)[id])}
    ensures !r.NoteDeleted? && !r.RowNotDeleted? ==> disk.files == old(disk.files)
    ensures db.notes == if r.NoteDeleted? then old(db.notes) - {id} else old(db.notes)
    ensures SameElsewhere(old(db.notes), id, disk.files, old(disk.files))
    ensures EveryRowHasFile(old(db.notes), old(disk.files)) ==>
      (EveryRowHasFile(db.notes, disk.files) <==> !r.RowNotDeleted?)
    ensures forall i | |old(disk.history)| <= i < |disk.history| ::
      disk.history[i] == old(disk.files) || disk.history[i] == disk.files
    ensures !db.faulty ==> !r.RowNotDeleted?
    ensures !disk.faulty && !db.faulty ==> (r.NoteDeleted? <==> id in old(db.notes))
    ensures (r.InvalidDelete? <==> !IsUuidV4(id)) && (r.NothingToDelete? ==> id !in old(db.notes))
    ensures !db.faulty ==> (r.NothingToDelete? <==> IsUuidV4(id) && id !in old(db.notes)) && !r.RowNotRead?
    ensures !disk.faulty ==> !r.FileNotRemoved?
  {
    SameFilesElsewhere(db.notes, id, disk.files);
    if !IsUuidV4(id) { return InvalidDelete; }
    var found := db.GetNote(id);
    match found {
      case NotFound => return NothingToDelete;
      case Failed => return RowNotRead;
      case Done(_) =>
    }
    RemovedKeepsOthers(db.notes, id, disk.files);
    r := RemoveBoth(disk, db, id, KeyOf(found.value));
  }

  /** `DeleteNote` once the row is known. */
  method RemoveBoth(disk: Disk, db: D.Database, id: string, key: Path) returns (r: DeleteReply)
    requires disk.Valid() && id in db.notes
    modifies disk`files, disk`history, db`notes
    ensures disk.Valid() && old(disk.history) <= disk.history
    ensures r.NoteDeleted? || r.RowNotDeleted? || (r.FileNotRemoved? && disk.faulty)
    ensures disk.files == if r.FileNotRemoved? then old(disk.files) else old(disk.files) - {key}
    ensures db.notes == if r.NoteDeleted? then old(db.notes) - {id} else old(db.notes)
    ensures forall i | |old(disk.history)| <= i < |disk.history| :: disk.history[i] == disk.files
    ensures !db.faulty ==> !r.RowNotDeleted?
  {
    var removed := disk.Remove(key);
    if removed.Failed? { return FileNotRemoved; }
    assert disk.files == old(disk.files) - {key};
    var deleted := db.DeleteNote(id);
    if !deleted.Done? { return RowNotDeleted; }
    if !deleted.value { return NothingToDelete; }
    r := NoteDeleted;
  }

  lemma RemovedKeepsOthers(notes: map<string, NoteRow>, id: string, files: Files)
    requires RowsOk(notes) && id in notes
    ensures SameElsewhere(notes, id, files - {KeyOf(notes[id])}, files)
    ensures RowsOk(notes - {id}) && !EveryRowHasFile(notes, files - {KeyOf(notes[id])})
    ensures EveryRowHasFile(notes, files) ==> EveryRowHasFile(notes - {id}, files - {KeyOf(notes[id])})
  {
    KeyNotElsewhere(notes, id, notes[id].parentDir, notes[id].title, files - {KeyOf(notes[id])}, files);
  }

  lemma SameFilesElsewhere(notes: map<string, NoteRow>, id: string, files: Files)
    ensures SameElsewhere(notes, id, files, files)
  {}

  // ---- Reading (notes/get_note.go, notes/list_notes.go) ----

  datatype GetReply = Found(note: Note) | InvalidGet | NoNote | NotRead

  /** `GetNote` shows the view. */
  method GetNote(disk: Disk, db: D.Database, id: string) returns (r: GetReply)
    ensures r.Found? ==> id in View(db.notes, disk.files) && r.note == View(db.notes, disk.files)[id]
    ensures r.NoNote? ==> id !in View(db.notes, disk.files)
    ensures !disk.faulty && !db.faulty && IsUuidV4(id) ==> (r.Found? <==> id in View(db.notes, disk.files))
    ensures r.Found? ==> id in db.notes && var row := db.notes[id];
      var key := NoteKey(row.parentDir, row.title, row.id);
      key in disk.files && r.note == Note(row.parentDir, row.title, disk.files[key])
    ensures r.InvalidGet? <==> !IsUuidV4(id)
    ensures !disk.faulty && !db.faulty ==> !r.NotRead?
    ensures !disk.faulty && !db.faulty ==> (r.NoNote? <==>
      && IsUuidV4(id)
      && (id !in db.notes ||
           NoteKey(db.notes[id].parentDir, db.notes[id].title, db.notes[id].id) !in disk.files))
  {
    if !IsUuidV4(id) { return InvalidGet; }
    var found := db.GetNote(id);
    match found {
      case NotFound => return NoNote;
      case Failed => return NotRead;
      case Done(_) =>
    }
    var row := found.value;
    var content, missing := disk.ReadFile(KeyOf(row));
    if content.None? { return if missing then NoNote else NotRead; }
    r := Found(Note(row.parentDir, row.title, content.value));
  }

  datatype Listed = Listed(id: string, note: Note)

  datatype ListReply = Listing(notes: seq<Listed>) | InvalidDir | NoDir | NotListed

  function Shown(row: NoteRow, files: Files): Listed
    requires KeyOf(row) in files
  {
    Listed(row.id, Note(row.parentDir, row.title, files[KeyOf(row)]))
  }

  ghost predicate ShowsRows(shown: seq<Listed>, rows: seq<NoteRow>, files: Files) {
    && (forall i, j | 0 <= i < j < |shown| :: shown[i].id != shown[j].id)
    && (forall x :: x in shown <==> exists row :: row in rows && KeyOf(row) in files && x == Shown(row, files))
  }

  ghost predicate KeyedById(notes: map<string, NoteRow>) { forall id | id in notes :: notes[id].id == id }

  lemma ListedDistinct(notes: map<string, NoteRow>, dir: string, rows: seq<NoteRow>)
    requires KeyedById(notes) && Lists(rows, D.NotesIn(notes, dir))
    ensures forall i, j | 0 <= i < j < |rows| :: rows[i].id != rows[j].id
  {
    forall i, j | 0 <= i < j < |rows| ensures rows[i].id != rows[j].id {
      assert rows[i] in rows && rows[j] in rows;
      assert rows[i] == notes[rows[i].id] && rows[j] == notes[rows[j].id];
    }
  }

  lemma ShownIsView(notes: map<string, NoteRow>, files: Files, dir: string, rows: seq<NoteRow>, shown: seq<Listed>)
    requires KeyedById(notes) && Lists(rows, D.NotesIn(notes, dir)) && ShowsRows(shown, rows, files)
    ensures forall x ::
      x in shown <==> x.id in View(notes, files) && View(notes, files)[x.id] == x.note && x.note.parentDir == dir
  {
    forall x: Listed
      ensures x in shown
         <==> x.id in View(notes, files) && View(notes, files)[x.id] == x.note && x.note.parentDir == dir
    {
      if x in shown {
        var row :| row in rows && KeyOf(row) in files && x == Shown(row, files);
        assert row in D.NotesIn(notes, dir);
      }
      if x.id in View(notes, files) && View(notes, files)[x.id] == x.note && x.note.parentDir == dir {
        assert notes[x.id] in D.NotesIn(notes, dir);
        assert x == Shown(notes[x.id], files);
      }
    }
  }

  /** `ListNotes` shows the part of the view with this directory, each note once; rows without a file
      are skipped. */
  method ListNotes(disk: Disk, db: D.Database, parentDir: string) returns (r: ListReply)
    requires disk.Valid() && RowsOk(db.notes)
    ensures r.Listing? ==> forall i, j | 0 <= i < j < |r.notes| :: r.notes[i].id != r.notes[j].id
    ensures r.Listing? ==> forall x :: x in r.notes <==>
      x.id in View(db.notes, disk.files) && View(db.notes, disk.files)[x.id] == x.note && x.note.parentDir == parentDir
    ensures r.Listing? ==> forall x :: x in r.notes <==>
      && x.id in db.notes && db.notes[x.id].parentDir == parentDir
      && var title := db.notes[x.id].title; var key := NoteKey(parentDir, title, x.id);
      && key in disk.files && x.note == Note(parentDir, title, disk.files[key])
    ensures !disk.faulty && !db.faulty ==> (r.Listing? <==> Accepted(parentDir) && Components(parentDir) in disk.dirs)
    ensures r.InvalidDir? <==> !Accepted(parentDir)
    ensures !disk.faulty ==> (r.NoDir? <==> Accepted(parentDir) && Components(parentDir) !in disk.dirs)
  {
    if !Accepted(parentDir) { return InvalidDir; }
    var isDir := RequireDir(disk, Components(parentDir));
    if !isDir { return NoDir; }
    var rows := db.ListNotes(parentDir);
    if !rows.Done? { return NotListed; }
    assert KeyedById(db.notes);
    ListedDistinct(db.notes, parentDir, rows.value);
    r := ReadNotes(disk, rows.value);
    if r.Listing? { ShownIsView(db.notes, disk.files, parentDir, rows.value, r.notes); }
  }

  /** The loop of `ListNotes`. */
  method ReadNotes(disk: Disk, rows: seq<NoteRow>) returns (r: ListReply)
    requires forall i, j | 0 <= i < j < |rows| :: rows[i].id != rows[j].id
    ensures r.Listing? ==> ShowsRows(r.notes, rows, disk.files)
    ensures r.Listing? || r.NotListed?
    ensures !disk.faulty ==> r.Listing?
  {
    var notes: seq<Listed> := [];
    for i := 0 to |rows|
      invariant ShowsRows(notes, rows[..i], disk.files)
    {
      var row := rows[i];
      assert rows[..i + 1] == rows[..i] + [row];
      var content, missing := disk.ReadFile(KeyOf(row));
      if content.None? {
        if missing { continue; }
        return NotListed;
      }
      forall x | x in notes ensures x.id != row.id {
        var other :| other in rows[..i] && KeyOf(other) in disk.files && x == Shown(other, disk.files);
        var j :| 0 <= j < i && rows[j] == other;
      }
      notes := notes + [Listed(row.id, Note(row.parentDir, row.title, content.value))];
    }
    assert rows[..|rows|] == rows;
    r := Listing(notes);
  }
}
