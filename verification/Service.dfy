/** Whole runs of the service: any sequence of requests, served without faults, against the model. */
module Service {
  import opened Strings
  import opened Rows
  import opened Paths
  import opened DirRename
  import opened NotePaths
  import opened Disk
  import opened TaskUpdate
  import N = Notes
  import opened NoteStore
  import opened FolderStore
  import F = Folders
  import L = TaskLists
  import D = Database
  import opened ServiceModel
  import opened ServiceSteps
  import opened ListSteps
  import U = Upcoming

  // ---- One request ----

  /** The handlers without faults, as relations between states. */
  method CreateQuietly(disk: Disk, db: D.Database, q: Request, now: int, ghost trees: L.Trees)
    requires disk.Valid() && N.RowsOk(db.notes) && !disk.faulty && !db.faulty && q.NoteCreate? && IsUuidV4(q.id)
    requires q.id !in db.notes
    modifies disk`files, disk`history, db`notes
    ensures NoteAdded(old(Now(disk, db, trees)), q, now, Now(disk, db, trees))
  {
    var r := N.CreateNote(disk, db, q.parentDir, q.title, q.content, q.id, now);
  }

  method UpdateQuietly(disk: Disk, db: D.Database, q: Request, now: int, ghost trees: L.Trees)
    requires disk.Valid() && N.RowsOk(db.notes) && !disk.faulty && !db.faulty && q.NoteUpdate?
    requires q.id in db.notes ==> N.KeyOf(db.notes[q.id]) in disk.files && N.KeyOf(db.notes[q.id]) !in disk.dirs
    modifies disk`files, disk`history, db`notes
    ensures NoteChanged(old(Now(disk, db, trees)), q, now, Now(disk, db, trees))
  {
    var r := N.UpdateNote(disk, db, q.id, q.title, q.content, now);
  }

  method DropQuietly(disk: Disk, db: D.Database, q: Request, ghost trees: L.Trees)
    requires disk.Valid() && N.RowsOk(db.notes) && !disk.faulty && !db.faulty && q.NoteDelete?
    requires q.id in db.notes ==> N.KeyOf(db.notes[q.id]) !in disk.dirs
    modifies disk`files, disk`history, db`notes
    ensures NoteDropped(old(Now(disk, db, trees)), q, Now(disk, db, trees))
  {
    var r := N.DeleteNote(disk, db, q.id);
    assert q.id in old(db.notes) ==> r.NoteDeleted?;
  }

  method MakeQuietly(disk: Disk, db: D.Database, q: Request, ghost trees: L.Trees)
    requires disk.Valid() && !disk.faulty && q.FolderCreate?
    modifies disk`dirs
    ensures FolderMade(old(Now(disk, db, trees)), q, Now(disk, db, trees))
  {
    var r := F.CreateFolder(disk, q.name, q.parentDir);
    assert Components(q.parentDir) + [q.name] in old(disk.dirs) ==>
      disk.dirs + {Components(q.parentDir) + [q.name]} == disk.dirs;
  }

  method ServeNoteCreate(disk: Disk, db: D.Database, q: Request, now: int, e: Engine, ghost trees: L.Trees)
    requires Good(Now(disk, db, trees)) && !disk.faulty && !db.faulty
    requires q.NoteCreate? && IsUuidV4(q.id) && q.id !in db.notes
    modifies disk`files, disk`history, db`notes
    ensures Answers(old(Now(disk, db, trees)), q, Now(disk, db, trees), e)
  {
    ghost var s := Now(disk, db, trees);
    CreateQuietly(disk, db, q, now, trees);
    NoteCreateStep(s, q, now, Now(disk, db, trees), e);
  }

  method ServeNoteUpdate(disk: Disk, db: D.Database, q: Request, now: int, e: Engine, ghost trees: L.Trees)
    requires Good(Now(disk, db, trees)) && !disk.faulty && !db.faulty && q.NoteUpdate?
    modifies disk`files, disk`history, db`notes
    ensures Answers(old(Now(disk, db, trees)), q, Now(disk, db, trees), e)
  {
    ghost var s := Now(disk, db, trees);
    OwnPathIsFile(s.notes, s.files, s.dirs, q.id);
    UpdateQuietly(disk, db, q, now, trees);
    NoteUpdateStep(s, q, now, Now(disk, db, trees), e);
  }

  method ServeNoteDelete(disk: Disk, db: D.Database, q: Request, e: Engine, ghost trees: L.Trees)
    requires Good(Now(disk, db, trees)) && !disk.faulty && !db.faulty && q.NoteDelete?
    modifies disk`files, disk`history, db`notes
    ensures Answers(old(Now(disk, db, trees)), q, Now(disk, db, trees), e)
  {
    ghost var s := Now(disk, db, trees);
    OwnPathIsFile(s.notes, s.files, s.dirs, q.id);
    DropQuietly(disk, db, q, trees);
    NoteDeleteStep(s, q, Now(disk, db, trees), e);
  }

  method ServeFolderCreate(disk: Disk, db: D.Database, q: Request, e: Engine, ghost trees: L.Trees)
    requires Good(Now(disk, db, trees)) && !disk.faulty && q.FolderCreate?
    modifies disk`dirs
    ensures Answers(old(Now(disk, db, trees)), q, Now(disk, db, trees), e)
  {
    ghost var s := Now(disk, db, trees);
    MakeQuietly(disk, db, q, trees);
    FolderCreateStep(s, q, Now(disk, db, trees), e);
  }

  /** `UpdateFolder` without faults, on both stores. */
  method RenameQuietly(disk: Disk, db: D.Database, folder: string, newName: string, ghost trees: L.Trees)
    requires disk.Valid() && !disk.faulty && !db.faulty
    modifies disk`files, disk`dirs, disk`history, db`notes, db`lists
    ensures disk.Valid()
    ensures AllMoved(F.CanRename(old(disk.files), old(disk.dirs), folder, newName), folder, newName,
        old(Now(disk, db, trees)), Now(disk, db, trees))
  {
    var r := F.UpdateFolder(disk, db, folder, newName);
  }

  method ServeFolderRename(disk: Disk, db: D.Database, q: Request, e: Engine, ghost trees: L.Trees)
    requires Good(Now(disk, db, trees)) && !disk.faulty && !db.faulty
    requires q.FolderRename? && Apart(Now(disk, db, trees), q)
    modifies disk`files, disk`dirs, disk`history, db`notes, db`lists
    ensures Answers(old(Now(disk, db, trees)), q, Now(disk, db, trees), e)
  {
    ghost var s := Now(disk, db, trees);
    RenameQuietly(disk, db, q.folder, q.newName, trees);
    FolderRenameStep(s, q, Now(disk, db, trees), e);
  }

  /** `DeleteFolder` without faults, on both stores. */
  method DeleteQuietly(disk: Disk, db: D.Database, folder: string, ghost trees: L.Trees) returns (ghost trees': L.Trees)
    requires disk.Valid() && !disk.faulty && !db.faulty
    modifies disk`files, disk`dirs, disk`history, db
    ensures disk.Valid()
    ensures AllDeleted(MayDeleteFolder(old(disk.dirs), folder), folder, old(Now(disk, db, trees)),
        Now(disk, db, trees'))
  {
    var r := F.DeleteFolder(disk, db, folder);
    trees' := if MayDeleteFolder(old(disk.dirs), folder) then TreesLeft(db.lists, trees) else trees;
  }

  method ServeFolderDelete(disk: Disk, db: D.Database, q: Request, e: Engine, ghost trees: L.Trees)
    returns (ghost trees': L.Trees)
    requires Good(Now(disk, db, trees)) && !disk.faulty && !db.faulty
    requires q.FolderDelete? && Apart(Now(disk, db, trees), q)
    modifies disk`files, disk`dirs, disk`history, db
    ensures Answers(old(Now(disk, db, trees)), q, Now(disk, db, trees'), e)
  {
    ghost var s := Now(disk, db, trees);
    trees' := DeleteQuietly(disk, db, q.folder, trees);
    FolderDeleteStep(s, q, Now(disk, db, trees'), e);
  }

  method AddListQuietly(disk: Disk, db: D.Database, q: Request, now: int, valid: L.ValidRule, ghost trees: L.Trees)
    returns (ghost created: bool, ghost trees': L.Trees)
    requires disk.Valid() && !disk.faulty && !db.faulty && L.Holds(db.lists, db.tasks, trees) && q.ListCreate?
    requires IdsOk(q)
    modifies db`lists, db`tasks
    ensures ListAdded(created, old(Now(disk, db, trees)), q, now, Now(disk, db, trees'), valid)
  {
    InfosTrees(db.lists, trees);
    var r := L.CreateTaskList(disk, db, q.parentDir, q.title, q.tasks, q.isAutoDelete, now, q.id, q.newIds, valid,
        trees);
    created := r.Ok?;
    trees' := if r.Ok? then trees[q.id := r.value.tasks] else trees;
  }

  method ChangeListQuietly(disk: Disk, db: D.Database, q: Request, now: int, e: Engine, ghost trees: L.Trees)
    returns (ghost changed: bool, ghost trees': L.Trees, ghost filled: seq<MainTask>)
    requires !db.faulty && L.Holds(db.lists, db.tasks, trees) && q.ListUpdate? && IdsOk(q)
    modifies db`lists, db`tasks
    ensures ListChanged(changed, old(Now(disk, db, trees)), q, now, filled, Now(disk, db, trees'), e)
  {
    ghost var s := Now(disk, db, trees);
    var r, submitted, _ :=
      L.UpdateTaskList(db, q.id, q.title, q.tasks, q.isAutoDelete, now, q.newIds, e.valid, e.next, trees);
    filled, changed, trees' := submitted, r.Ok?, trees;
    ghost var tree: seq<MainTask> := [];
    if r.Ok? { trees', tree := trees[q.id := r.value.tasks], r.value.tasks; }
    ChangedList(changed, s, q, now, filled, tree, Now(disk, db, trees'), e);
  }

  method DropListQuietly(disk: Disk, db: D.Database, q: Request, ghost trees: L.Trees) returns (ghost trees': L.Trees)
    requires L.Holds(db.lists, db.tasks, trees) && q.ListDelete? && !db.faulty
    modifies db`lists, db`tasks
    ensures L.Holds(db.lists, db.tasks, trees') && ListRemoved(old(Now(disk, db, trees)), q.id, Now(disk, db, trees'))
  {
    var r := L.DeleteTaskList(db, q.id, trees);
    trees' := if r.Ok? then trees - {q.id} else trees;
  }

  method ServeListCreate(disk: Disk, db: D.Database, q: Request, now: int, e: Engine, ghost trees: L.Trees)
    returns (ghost trees': L.Trees)
    requires Good(Now(disk, db, trees)) && !disk.faulty && !db.faulty && q.ListCreate? && IdsOk(q)
    modifies db`lists, db`tasks
    ensures Answers(old(Now(disk, db, trees)), q, Now(disk, db, trees'), e)
  {
    ghost var s := Now(disk, db, trees);
    ghost var created;
    created, trees' := AddListQuietly(disk, db, q, now, e.valid, trees);
    ListCreateStep(created, s, q, now, Now(disk, db, trees'), e);
  }

  method ServeListUpdate(disk: Disk, db: D.Database, q: Request, now: int, e: Engine, ghost trees: L.Trees)
    returns (ghost trees': L.Trees)
    requires Good(Now(disk, db, trees)) && !db.faulty && q.ListUpdate? && IdsOk(q)
    modifies db`lists, db`tasks
    ensures Answers(old(Now(disk, db, trees)), q, Now(disk, db, trees'), e)
  {
    ghost var s := Now(disk, db, trees);
    ghost var changed, filled;
    changed, trees', filled := ChangeListQuietly(disk, db, q, now, e, trees);
    ListUpdateStep(changed, s, q, now, filled, Now(disk, db, trees'), e);
  }

  method ServeListDelete(disk: Disk, db: D.Database, q: Request, e: Engine, ghost trees: L.Trees)
    returns (ghost trees': L.Trees)
    requires Good(Now(disk, db, trees)) && q.ListDelete? && !db.faulty
    modifies db`lists, db`tasks
    ensures Answers(old(Now(disk, db, trees)), q, Now(disk, db, trees'), e)
  {
    ghost var s := Now(disk, db, trees);
    trees' := DropListQuietly(disk, db, q, trees);
    ListDeleteStep(s, q, Now(disk, db, trees'), e);
  }

  method ServeOne(disk: Disk, db: D.Database, q: Request, now: int, e: Engine, ghost trees: L.Trees)
    returns (ghost trees': L.Trees)
    requires Good(Now(disk, db, trees)) && !disk.faulty && !db.faulty
    requires IdsOk(q) && (q.NoteCreate? ==> q.id !in db.notes) && Apart(Now(disk, db, trees), q)
    modifies disk, db
    ensures Answers(old(Now(disk, db, trees)), q, Now(disk, db, trees'), e)
  {
    trees' := trees;
    if q.NoteCreate? {
      ServeNoteCreate(disk, db, q, now, e, trees);
    } else if q.NoteUpdate? {
      ServeNoteUpdate(disk, db, q, now, e, trees);
    } else if q.NoteDelete? {
      ServeNoteDelete(disk, db, q, e, trees);
    } else if q.FolderCreate? {
      ServeFolderCreate(disk, db, q, e, trees);
    } else if q.FolderRename? {
      ServeFolderRename(disk, db, q, e, trees);
    } else if q.FolderDelete? {
      trees' := ServeFolderDelete(disk, db, q, e, trees);
    } else if q.ListCreate? {
      trees' := ServeListCreate(disk, db, q, now, e, trees);
    } else if q.ListUpdate? {
      trees' := ServeListUpdate(disk, db, q, now, e, trees);
    } else {
      trees' := ServeListDelete(disk, db, q, e, trees);
    }
  }

  // ---- Whole runs ----

  lemma NotesAfterKeys(v: map<string, Note>, dirs: set<Path>, q: Request)
    ensures forall id | id in NotesAfter(v, dirs, q) :: id in v || (q.NoteCreate? && id == q.id)
  {}

  /** No request still to come draws an id that is taken. */
  ghost predicate IdsFresh(requests: seq<Request>, from: nat, ids: set<string>) {
    forall k | from <= k < |requests| :: requests[k].NoteCreate? ==> requests[k].id !in ids
  }

  /** The requests bring well-formed ids, and no two notes the same one. */
  ghost predicate RequestsOk(requests: seq<Request>) {
    && (forall k | 0 <= k < |requests| :: IdsOk(requests[k]))
    && (forall i, j | 0 <= i < j < |requests| && requests[i].NoteCreate? && requests[j].NoteCreate? ::
      requests[i].id != requests[j].id)
  }

  lemma FreshAfter(requests: seq<Request>, k: nat, s: State, s': State, e: Engine)
    requires k < |requests| && RequestsOk(requests) && IdsFresh(requests, k, s.notes.Keys)
    requires N.EveryRowHasFile(s.notes, s.files) && Answers(s, requests[k], s', e)
    ensures IdsFresh(requests, k + 1, s'.notes.Keys)
  {
    ViewKeys(s.notes, s.files);
    ViewKeys(s'.notes, s'.files);
    NotesAfterKeys(N.View(s.notes, s.files), s.dirs, requests[k]);
  }

  /** The models before and after each request. */
  ghost predicate Trace(models: seq<Model>, requests: seq<Request>, e: Engine)
    decreases |requests|
  {
    var n := |requests|;
    && |models| == n + 1
    && (n > 0 ==> Trace(models[..n], requests[..n - 1], e) && Step(models[n - 1], requests[n - 1], models[n], e))
  }

  lemma TraceNext(models: seq<Model>, requests: seq<Request>, k: nat, m: Model, e: Engine)
    requires k < |requests| && Trace(models, requests[..k], e) && Step(models[k], requests[k], m, e)
    ensures Trace(models + [m], requests[..k + 1], e)
  {
    assert (models + [m])[..k + 1] == models && requests[..k + 1][..k] == requests[..k];
  }

  lemma {:induction false} TraceAt(models: seq<Model>, requests: seq<Request>, e: Engine, k: nat)
    requires Trace(models, requests, e) && k < |requests|
    ensures Step(models[k], requests[k], models[k + 1], e)
    decreases |requests|
  {
    var n := |requests|;
    if k >= n - 1 {
    } else {
      TraceAt(models[..n], requests[..n - 1], e, k);
    }
  }

  method ServeNext(disk: Disk, db: D.Database, requests: seq<Request>, k: nat, now: int, e: Engine,
                   ghost trees: L.Trees)
    returns (ghost trees': L.Trees)
    requires Good(Now(disk, db, trees)) && !disk.faulty && !db.faulty
    requires k < |requests| && RequestsOk(requests) && IdsFresh(requests, k, db.notes.Keys)
    requires Apart(Now(disk, db, trees), requests[k])
    modifies disk, db
    ensures Answers(old(Now(disk, db, trees)), requests[k], Now(disk, db, trees'), e)
    ensures IdsFresh(requests, k + 1, db.notes.Keys)
  {
    ghost var s := Now(disk, db, trees);
    trees' := ServeOne(disk, db, requests[k], now, e, trees);
    FreshAfter(requests, k, s, Now(disk, db, trees'), e);
  }

  /** Each model follows from the one before. */
  ghost predicate StepByStep(models: seq<Model>, requests: seq<Request>, e: Engine) {
    |models| == |requests| + 1 && forall k | 0 <= k < |requests| :: Step(models[k], requests[k], models[k + 1], e)
  }

  lemma TraceSteps(models: seq<Model>, requests: seq<Request>, e: Engine)
    requires Trace(models, requests, e)
    ensures StepByStep(models, requests, e)
  {
    forall k | 0 <= k < |requests|
      ensures Step(models[k], requests[k], models[k + 1], e)
    {
      TraceAt(models, requests, e, k);
    }
  }

  /** Over any run dates stay texts of dates, and well-shaped ones as long as the engine ends in time. */
  lemma {:induction false} RunDates(models: seq<Model>, requests: seq<Request>, e: Engine, k: nat)
    requires StepByStep(models, requests, e) && k <= |requests| && StrictlyLater(e.next)
    ensures DatedModel(models[0]) ==> DatedModel(models[k])
    ensures EndsInTime(e.next) && ShapedModel(models[0]) ==> ShapedModel(models[k])
  {
    if k <= 0 {
    } else {
      RunDates(models, requests, e, k - 1);
      StepDates(models[k - 1], requests[k - 1], models[k], e);
    }
  }

  /** Any sequence of requests, served without faults from any state that satisfies the invariant: the
      service shows the model after every request, up to the first folder rename or delete that would be
      carried out although LIKE does not tell the stored directories apart. Due dates stay texts of dates,
      and well-shaped as long as the engine ends in time. */
  method Serve(disk: Disk, db: D.Database, requests: seq<Request>, now: int, e: Engine, ghost trees: L.Trees)
    returns (served: nat, ghost models: seq<Model>, ghost trees': L.Trees)
    requires Good(Now(disk, db, trees)) && !disk.faulty && !db.faulty
    requires RequestsOk(requests) && IdsFresh(requests, 0, db.notes.Keys)
    modifies disk, db
    ensures served <= |requests| && Trace(models, requests[..served], e)
    ensures models[0] == old(Shown(Now(disk, db, trees))) && models[served] == Shown(Now(disk, db, trees'))
    ensures Good(Now(disk, db, trees'))
    ensures served < |requests| ==> !Apart(Now(disk, db, trees'), requests[served])
    ensures StrictlyLater(e.next) && U.DatedTrees(trees) ==> U.DatedTrees(trees')
    ensures StrictlyLater(e.next) && EndsInTime(e.next) && U.ShapedTrees(trees) ==> U.ShapedTrees(trees')
  {
    ghost var s := Now(disk, db, trees);
    served, models, trees' := ServeAll(disk, db, requests, now, e, trees);
    ShownDates(s);
    ShownDates(Now(disk, db, trees'));
    TraceSteps(models, requests[..served], e);
    if StrictlyLater(e.next) { RunDates(models, requests[..served], e, served); }
  }

  method ServeAll(disk: Disk, db: D.Database, requests: seq<Request>, now: int, e: Engine, ghost trees: L.Trees)
    returns (served: nat, ghost models: seq<Model>, ghost trees': L.Trees)
    requires Good(Now(disk, db, trees)) && !disk.faulty && !db.faulty
    requires RequestsOk(requests) && IdsFresh(requests, 0, db.notes.Keys)
    modifies disk, db
    ensures served <= |requests| && Trace(models, requests[..served], e)
    ensures models[0] == old(Shown(Now(disk, db, trees))) && models[served] == Shown(Now(disk, db, trees'))
    ensures Good(Now(disk, db, trees'))
    ensures served < |requests| ==> !Apart(Now(disk, db, trees'), requests[served])
  {
    served, models, trees' := 0, [Shown(Now(disk, db, trees))], trees;
    while served < |requests|
      && TellsApart(N.View(db.notes, disk.files), disk.dirs, StoredDirs(db.notes, db.lists), requests[served])
      invariant served <= |requests| && Trace(models, requests[..served], e)
      invariant models[0] == old(Shown(Now(disk, db, trees))) && models[served] == Shown(Now(disk, db, trees'))
      invariant Good(Now(disk, db, trees')) && IdsFresh(requests, served, db.notes.Keys)
      decreases |requests| - served
    {
      trees' := ServeNext(disk, db, requests, served, now, e, trees');
      TraceNext(models, requests, served, Shown(Now(disk, db, trees')), e);
      models := models + [Shown(Now(disk, db, trees'))];
      served := served + 1;
    }
  }

  /** The empty data directory and the empty database satisfy the invariant. */
  lemma EmptyGood()
    ensures Good(State(map[], map[], map[], map[], {[]}, map[])) && U.DatedTrees(map[]) && U.ShapedTrees(map[])
  {
    L.EmptyHolds();
  }
}
