/** One simple model of the whole service - notes, task lists and directories - and what each request
    should do to it. */
module ServiceModel {
  import opened Strings
  import opened Rows
  import opened Paths
  import opened Like
  import opened DirRename
  import opened NotePaths
  import opened Disk
  import opened TaskTree
  import opened TaskUpdate
  import opened TaskStore
  import N = Notes
  import opened NoteStore
  import opened FolderStore
  import L = TaskLists
  import D = Database

  type Note = N.Note

  /** A task list as the service shows it, but for its time stamp. */
  datatype Info = Info(parentDir: string, title: string, isAutoDelete: bool, tasks: seq<MainTask>)

  /** All there is to know: the notes and the task lists by id, and the directories. */
  datatype Model = Model(notes: map<string, Note>, lists: map<string, Info>, dirs: set<Path>)

  datatype Request =
    | NoteCreate(parentDir: string, title: string, content: string, id: string)
    | NoteUpdate(id: string, title: string, content: string)
    | NoteDelete(id: string)
    | FolderCreate(name: string, parentDir: string)
    | FolderRename(folder: string, newName: string)
    | FolderDelete(folder: string)
    | ListCreate(parentDir: string, title: string, tasks: seq<MainTask>, isAutoDelete: bool, id: string,
        newIds: L.NewIds)
    | ListUpdate(id: string, title: string, tasks: seq<MainTask>, isAutoDelete: bool, newIds: L.NewIds)
    | ListDelete(id: string)

  // ---- What each request should do ----

  function NoteKeys(v: map<string, Note>): set<Path> {
    set id | id in v :: NoteKey(v[id].parentDir, v[id].title, id)
  }

  predicate MayWrite(title: string, content: string) {
    ValidName(title) && ByteLen(content) <= N.MAX_NOTE_CONTENT_BYTES
  }

  predicate MayCreateNote(dirs: set<Path>, parentDir: string, title: string, content: string, id: string) {
    Accepted(parentDir) && MayWrite(title, content) && Components(parentDir) in dirs
      && NoteKey(parentDir, title, id) !in dirs
  }

  predicate MayUpdateNote(v: map<string, Note>, dirs: set<Path>, id: string, title: string, content: string) {
    MayWrite(title, content) && id in v && NoteKey(v[id].parentDir, title, id) !in dirs
  }

  predicate MayCreateFolder(v: map<string, Note>, dirs: set<Path>, name: string, parentDir: string) {
    Accepted(parentDir) && ValidName(name) && Components(parentDir) in dirs
      && Components(parentDir) + [name] !in NoteKeys(v)
  }

  predicate MayRename(v: map<string, Note>, dirs: set<Path>, folder: string, newName: string) {
    && ValidName(newName) && FolderPath(folder) && Components(folder) in dirs
    && var a, b := Components(folder), Components(Sibling(folder, newName)); a == b || (b !in NoteKeys(v) && b !in dirs)
  }

  predicate MayDeleteFolder(dirs: set<Path>, folder: string) { FolderPath(folder) && Components(folder) in dirs }

  function NotesAfter(v: map<string, Note>, dirs: set<Path>, q: Request): map<string, Note> {
    match q
    case NoteCreate(d, t, c, id) => if MayCreateNote(dirs, d, t, c, id) then v[id := N.Note(d, t, c)] else v
    case NoteUpdate(id, t, c) => if MayUpdateNote(v, dirs, id, t, c) then v[id := N.Note(v[id].parentDir, t, c)] else v
    case NoteDelete(id) => v - {id}
    case FolderRename(folder, newName) =>
      if MayRename(v, dirs, folder, newName) then RenamedView(v, folder, Sibling(folder, newName)) else v
    case FolderDelete(folder) => if MayDeleteFolder(dirs, folder) then ViewOutside(v, folder) else v
    case _ => v
  }

  function DirsAfter(v: map<string, Note>, dirs: set<Path>, q: Request): set<Path> {
    match q
    case FolderCreate(name, d) => if MayCreateFolder(v, dirs, name, d) then dirs + {Components(d) + [name]} else dirs
    case FolderRename(folder, newName) =>
      if MayRename(v, dirs, folder, newName)
      then MovedDirs(dirs, Components(folder), Components(Sibling(folder, newName)))
      else dirs
    case FolderDelete(folder) =>
      if MayDeleteFolder(dirs, folder) then set d | d in dirs && !(Components(folder) <= d) else dirs
    case _ => dirs
  }

  function RenamedInfo(lists: map<string, Info>, from: string, to: string): map<string, Info> {
    map id | id in lists :: lists[id].(parentDir := Subst(from, to, lists[id].parentDir))
  }

  function InfosOutside(lists: map<string, Info>, folder: string): map<string, Info> {
    map id | id in lists && !Under(folder, lists[id].parentDir) :: lists[id]
  }

  function ListsAfter(lists: map<string, Info>, v: map<string, Note>, dirs: set<Path>, q: Request): map<string, Info> {
    match q
    case FolderRename(folder, newName) =>
      if MayRename(v, dirs, folder, newName) then RenamedInfo(lists, folder, Sibling(folder, newName)) else lists
    case FolderDelete(folder) =>
      if MayDeleteFolder(dirs, folder) then InfosOutside(lists, folder) else lists
    case ListDelete(id) => if IsUuidV4(id) then lists - {id} else lists
    case _ => lists
  }

  /** What a caller can check before a folder request: it will be refused, or LIKE tells the stored
      directories apart. */
  predicate TellsApart(v: map<string, Note>, dirs: set<Path>, stored: set<string>, q: Request) {
    match q
    case FolderRename(folder, newName) =>
      MayRename(v, dirs, folder, newName) ==> forall d | d in stored :: Exact(folder, Sibling(folder, newName), d)
    case FolderDelete(folder) =>
      MayDeleteFolder(dirs, folder) ==> forall d | d in stored :: D.DirSelected(folder, d) ==> Under(folder, d)
    case _ => true
  }

  function StoredDirs(notes: map<string, NoteRow>, lists: map<string, ListRow>): set<string> {
    (set id | id in notes :: notes[id].parentDir) + (set id | id in lists :: lists[id].parentDir)
  }

  // ---- State and steps ----

  /** The invariant of rows and files. */
  ghost predicate NotesPart(notes: map<string, NoteRow>, files: Files, dirs: set<Path>) {
    Consistent(notes, files) && IsTree(files, dirs)
  }

  function Infos(lists: map<string, ListRow>, trees: L.Trees): map<string, Info> {
    map id | id in lists && id in trees :: Info(lists[id].parentDir, lists[id].title, lists[id].isAutoDelete, trees[id])
  }

  ghost predicate ListDirsExist(lists: map<string, ListRow>, dirs: set<Path>) {
    forall l | l in lists :: Accepted(lists[l].parentDir) && Components(lists[l].parentDir) in dirs
  }

  /** The invariant of lists and tasks: the tables hold the trees, and every list's directory exists. */
  ghost predicate ListsPart(lists: map<string, ListRow>, tasks: map<string, TaskRow>, trees: L.Trees, dirs: set<Path>) {
    L.Holds(lists, tasks, trees) && ListDirsExist(lists, dirs)
  }

  /** Both stores, with the trees the tables stand for. */
  datatype State = State(notes: map<string, NoteRow>, lists: map<string, ListRow>, tasks: map<string, TaskRow>,
                         files: Files, dirs: set<Path>, trees: L.Trees)

  /** The invariant of the service. */
  ghost predicate Good(s: State) {
    NotesPart(s.notes, s.files, s.dirs) && ListsPart(s.lists, s.tasks, s.trees, s.dirs)
  }

  /** What the service shows. */
  ghost function Shown(s: State): Model {
    Model(N.View(s.notes, s.files), Infos(s.lists, s.trees), s.dirs)
  }

  ghost function Now(disk: Disk, db: D.Database, trees: L.Trees): State
    reads disk, db
  {
    State(db.notes, db.lists, db.tasks, disk.files, disk.dirs, trees)
  }

  /** `TellsApart` for the directories a state stores. */
  ghost predicate Apart(s: State, q: Request) {
    TellsApart(N.View(s.notes, s.files), s.dirs, StoredDirs(s.notes, s.lists), q)
  }

  // ---- Creating and updating lists ----

  /** The recurrence engine: the next occurrence of a rule, and which rules it can parse. */
  datatype Engine = Engine(next: NextOccurrence, valid: L.ValidRule)

  /** Some task or subtask of a list's tree has this id. */
  ghost predicate HasId(l: string, tree: seq<MainTask>, id: string) { exists r :: r in TreeRows(l, tree) && r.id == id }

  /** The ids a request draws are distinct, and no stored task has one of them. */
  ghost predicate DrawsFresh(lists: map<string, Info>, newIds: L.NewIds) {
    && (forall j, k | 0 <= j < k :: newIds(j) != newIds(k))
    && (forall k, l | l in lists :: !HasId(l, lists[l].tasks, newIds(k)))
  }

  /** The ids of a tree for list `l` are distinct, and no other list has one of them. */
  ghost predicate IdsFit(lists: map<string, Info>, l: string, tree: seq<MainTask>) {
    && DistinctIds(TreeRows(l, tree))
    && (forall r, other | r in TreeRows(l, tree) && other in lists && other != l ::
      !HasId(other, lists[other].tasks, r.id))
  }

  predicate MayCreateList(lists: map<string, Info>, dirs: set<Path>, q: Request, valid: L.ValidRule)
    requires q.ListCreate?
  {
    L.AcceptsCreate(q.parentDir, q.title, q.tasks, valid) && Components(q.parentDir) in dirs && q.id !in lists
  }

  ghost predicate MayUpdateList(lists: map<string, Info>, q: Request, valid: L.ValidRule)
    requires q.ListUpdate?
  {
    L.AcceptsUpdate(q.id, q.title, q.tasks, valid) && q.id in lists
  }

  /** An allowed creation adds exactly this list; only an id drawn twice can stop it. */
  ghost predicate ListCreated(m: Model, q: Request, lists': map<string, Info>, e: Engine)
    requires q.ListCreate?
  {
    if !MayCreateList(m.lists, m.dirs, q, e.valid) then lists' == m.lists
    else
      || (lists' == m.lists && !DrawsFresh(m.lists, q.newIds))
      || (exists tree :: L.AllIdsFilled(L.ClearAllIds(q.tasks), tree)
            && lists' == m.lists[q.id := Info(q.parentDir, q.title, q.isAutoDelete, tree)])
  }

  /** The prepared tasks can be stored for this list. */
  ghost predicate Storable(lists: map<string, Info>, id: string, prepared: Option<seq<MainTask>>) {
    prepared.Some? && IdsFit(lists, id, prepared.value)
  }

  /** An allowed update replaces exactly this list's title, flag and tree, if its tasks can be advanced and
      their ids fit, and otherwise changes nothing. */
  ghost predicate ListUpdated(lists: map<string, Info>, q: Request, lists': map<string, Info>, e: Engine)
    requires q.ListUpdate?
  {
    if !MayUpdateList(lists, q, e.valid) then lists' == lists
    else exists filled :: L.AllIdsFilled(q.tasks, filled) && ListReplaced(lists, q, filled, lists', e)
  }

  ghost predicate ListReplaced(lists: map<string, Info>, q: Request, filled: seq<MainTask>, lists': map<string, Info>,
                               e: Engine)
    requires q.ListUpdate? && q.id in lists
  {
    var prepared := Pipeline(filled, lists[q.id].tasks, q.isAutoDelete, e.next);
    if Storable(lists, q.id, prepared)
    then lists' == lists[q.id := Info(lists[q.id].parentDir, q.title, q.isAutoDelete, prepared.value)]
    else lists' == lists
  }

  /** One request: the model changes as it should. */
  ghost predicate Step(m: Model, q: Request, m': Model, e: Engine) {
    && m'.notes == NotesAfter(m.notes, m.dirs, q)
    && m'.dirs == DirsAfter(m.notes, m.dirs, q)
    && if q.ListCreate? then ListCreated(m, q, m'.lists, e)
       else if q.ListUpdate? then ListUpdated(m.lists, q, m'.lists, e)
       else m'.lists == ListsAfter(m.lists, m.notes, m.dirs, q)
  }

  /** The service was in state `s`, answered `q`, and is now in state `s'`. */
  ghost predicate Answers(s: State, q: Request, s': State, e: Engine) {
    Good(s') && Step(Shown(s), q, Shown(s'), e)
  }

  /** Both stores after a rename without faults: all moved, or nothing. */
  ghost predicate AllMoved(ok: bool, folder: string, newName: string, s: State, s': State) {
    var to := Sibling(folder, newName);
    if ok then
      s' == s.(notes := D.RenamedNotes(s.notes, folder, to), lists := D.RenamedLists(s.lists, folder, to),
               files := MovedFiles(s.files, Components(folder), Components(to)),
               dirs := MovedDirs(s.dirs, Components(folder), Components(to)))
    else s' == s
  }

  /** The trees of the lists that are left. */
  function TreesLeft(lists: map<string, ListRow>, trees: L.Trees): L.Trees {
    map l | l in trees && l in lists :: trees[l]
  }

  /** Both stores after a folder delete without faults: all gone, or nothing. */
  ghost predicate AllDeleted(ok: bool, folder: string, s: State, s': State) {
    var lists := D.ListsOutside(s.lists, folder);
    if ok then
      s' == s.(notes := D.NotesOutside(s.notes, folder), lists := lists,
               tasks := Cascade(lists.Keys, s.tasks), trees := TreesLeft(lists, s.trees),
               files := FilesOutside(s.files, Components(folder)),
               dirs := set d | d in s.dirs && !(Components(folder) <= d))
    else s' == s
  }

  /** The ids a request brings are well formed, as `uuid.NewString` makes them. */
  ghost predicate IdsOk(q: Request) {
    && (q.NoteCreate? || q.ListCreate? ==> IsUuidV4(q.id))
    && (q.ListCreate? || q.ListUpdate? ==> forall k :: IsUuidV4(q.newIds(k)))
  }
}
