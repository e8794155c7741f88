/** The `Database`: three tables, the statements over them, and transactions that roll back. */
module Database {
  import opened Strings
  import opened Rows
  import opened OrderBy
  import opened Like
  import opened DirRename
  import opened TaskTree
  import opened TaskStore
  import opened TaskForest
  import opened Dates
  import opened DateOrder
  import opened Faults

  /** `ErrNotFound` is told apart from every other error. */
  datatype Outcome<+T> = Done(value: T) | NotFound | Failed

  // ---- What the statements mean ----

  /** The directory a folder cascade selects. */
  predicate DirSelected(folder: string, dir: string) { dir == folder || Selects(folder + "/", dir) }

  function RenamedNotes(notes: map<string, NoteRow>, from: string, to: string): map<string, NoteRow> {
    map id | id in notes :: notes[id].(parentDir := TwoPass(from, to, notes[id].parentDir))
  }

  function RenamedLists(lists: map<string, ListRow>, from: string, to: string): map<string, ListRow> {
    map id | id in lists :: lists[id].(parentDir := TwoPass(from, to, lists[id].parentDir))
  }

  /** A folder rename changes nothing of a row but its directory. */
  lemma RenamedRows(notes: map<string, NoteRow>, lists: map<string, ListRow>, from: string, to: string)
    ensures var n := RenamedNotes(notes, from, to);
      n.Keys == notes.Keys &&
      forall id | id in n :: n[id] == notes[id].(parentDir := TwoPass(from, to, notes[id].parentDir))
    ensures var l := RenamedLists(lists, from, to);
      l.Keys == lists.Keys &&
      forall id | id in l :: l[id] == lists[id].(parentDir := TwoPass(from, to, lists[id].parentDir))
  {}

  // The four UPDATE statements.

  function NotesExact(notes: map<string, NoteRow>, from: string, to: string): map<string, NoteRow> {
    map id | id in notes :: if notes[id].parentDir == from then notes[id].(parentDir := to) else notes[id]
  }

  function NotesPrefix(notes: map<string, NoteRow>, pattern: string, toPrefix: string, cut: nat): map<string, NoteRow>
    requires cut >= 1
  {
    map id | id in notes ::
      if Matches(pattern, notes[id].parentDir, FoldEq)
        then notes[id].(parentDir := toPrefix + Substr(notes[id].parentDir, cut)) else notes[id]
  }

  function ListsExact(lists: map<string, ListRow>, from: string, to: string): map<string, ListRow> {
    map id | id in lists :: if lists[id].parentDir == from then lists[id].(parentDir := to) else lists[id]
  }

  function ListsPrefix(lists: map<string, ListRow>, pattern: string, toPrefix: string, cut: nat): map<string, ListRow>
    requires cut >= 1
  {
    map id | id in lists ::
      if Matches(pattern, lists[id].parentDir, FoldEq)
        then lists[id].(parentDir := toPrefix + Substr(lists[id].parentDir, cut)) else lists[id]
  }

  /** The statements, run one after the other, rewrite each directory by `TwoPass`. */
  lemma TwoPasses(notes: map<string, NoteRow>, lists: map<string, ListRow>, from: string, to: string)
    ensures var pattern, cut := Escape(from + "/") + "%", ByteLen(from + "/") + 1;
      && NotesPrefix(NotesExact(notes, from, to), pattern, to + "/", cut) == RenamedNotes(notes, from, to)
      && ListsPrefix(ListsExact(lists, from, to), pattern, to + "/", cut) == RenamedLists(lists, from, to)
  {
    var pattern, cut := Escape(from + "/") + "%", ByteLen(from + "/") + 1;
    assert forall dir :: Selects(from + "/", dir) == Matches(pattern, dir, FoldEq);
    var n, l := NotesPrefix(NotesExact(notes, from, to), pattern, to + "/", cut),
        ListsPrefix(ListsExact(lists, from, to), pattern, to + "/", cut);
    forall id | id in notes ensures n[id] == RenamedNotes(notes, from, to)[id] {}
    forall id | id in lists ensures l[id] == RenamedLists(lists, from, to)[id] {}
  }

  function NotesOutside(notes: map<string, NoteRow>, folder: string): map<string, NoteRow> {
    map id | id in notes && !DirSelected(folder, notes[id].parentDir) :: notes[id]
  }

  function ListsOutside(lists: map<string, ListRow>, folder: string): map<string, ListRow> {
    map id | id in lists && !DirSelected(folder, lists[id].parentDir) :: lists[id]
  }

  /** A folder delete takes the rows in the folder and those whose directory begins with it, equal or in the other
      case of an ASCII letter at each position, and a slash; it changes no other row. */
  lemma OutsideRows(notes: map<string, NoteRow>, lists: map<string, ListRow>, folder: string)
    ensures var n, l := NotesOutside(notes, folder), ListsOutside(lists, folder);
      && (forall id :: id in n <==> id in notes && !DirSelected(folder, notes[id].parentDir))
      && (forall id :: id in l <==> id in lists && !DirSelected(folder, lists[id].parentDir))
      && (forall id | id in n :: n[id] == notes[id])
      && (forall id | id in l :: l[id] == lists[id])
    ensures forall dir :: DirSelected(folder, dir) <==>
      dir == folder || (|dir| > |folder| && dir[|folder|] == '/' && forall i | 0 <= i < |folder| ::
        var a, b := folder[i], dir[i];
        a == b || ('A' <= a <= 'Z' && b as int == a as int + 32) || ('A' <= b <= 'Z' && a as int == b as int + 32))
  {
    forall dir
      ensures Selects(folder + "/", dir) <==>
        |dir| > |folder| && dir[|folder|] == '/' && forall i | 0 <= i < |folder| ::
          var a, b := folder[i], dir[i];
          a == b || ('A' <= a <= 'Z' && b as int == a as int + 32) || ('A' <= b <= 'Z' && a as int == b as int + 32)
    {
      SelectsBelow(folder, dir);
    }
  }

  // The two DELETE statements.

  function NotesNotLike(notes: map<string, NoteRow>, folder: string, pattern: string): map<string, NoteRow> {
    map id | id in notes && !(notes[id].parentDir == folder || Matches(pattern, notes[id].parentDir, FoldEq)) ::
      notes[id]
  }

  function ListsNotLike(lists: map<string, ListRow>, folder: string, pattern: string): map<string, ListRow> {
    map id | id in lists && !(lists[id].parentDir == folder || Matches(pattern, lists[id].parentDir, FoldEq)) ::
      lists[id]
  }

  lemma DeletesSelected(notes: map<string, NoteRow>, lists: map<string, ListRow>, folder: string)
    ensures var pattern := Escape(folder + "/") + "%";
      NotesNotLike(notes, folder, pattern) == NotesOutside(notes, folder)
        && ListsNotLike(lists, folder, pattern) == ListsOutside(lists, folder)
  {
    assert forall dir :: Selects(folder + "/", dir) == Matches(Escape(folder + "/") + "%", dir, FoldEq);
  }

  /** Deleting all lists but these, with what they own. */
  lemma KeptApplied(db: TaskDb, kept: map<string, ListRow>)
    requires forall l | l in kept :: l in db.lists && kept[l] == db.lists[l]
    ensures Apply(db, Delete(db.lists.Keys - kept.Keys)) == TaskDb(kept, Cascade(kept.Keys, db.tasks))
  {
    assert db.lists - (db.lists.Keys - kept.Keys) == kept;
  }

  function NotesIn(notes: map<string, NoteRow>, dir: string): set<NoteRow> {
    set id | id in notes && notes[id].parentDir == dir :: notes[id]
  }

  function ListsIn(lists: map<string, ListRow>, dir: string): set<ListRow> {
    set id | id in lists && lists[id].parentDir == dir :: lists[id]
  }

  /** The main tasks of a list: the rows its LEFT JOIN finds. */
  function MainsOf(tasks: Tasks, l: string): set<TaskRow> {
    set id | id in tasks && tasks[id].listId == Some(l) :: tasks[id]
  }

  function SubsOf(tasks: Tasks, parent: string): set<TaskRow> {
    set id | id in tasks && tasks[id].parentId == Some(parent) :: tasks[id]
  }

  /** A list with its aggregate counts. */
  datatype CountedList = CountedList(list: ListRow, total: nat, done: nat)

  function Counted(tasks: Tasks, list: ListRow): CountedList {
    CountedList(list, |MainsOf(tasks, list.id)|, |set r | r in MainsOf(tasks, list.id) && r.isDone|)
  }

  // ---- Upcoming tasks ----

  /** `due_date >= from`; NULL compares to nothing. */
  predicate IsUpcoming(r: TaskRow, from: string) {
    r.listId.Some? && !r.isDone && r.dueDate.Some? && !Less(r.dueDate.value, from)
  }

  function UpcomingRows(tasks: Tasks, from: string): set<TaskRow> {
    set id | id in tasks && IsUpcoming(tasks[id], from) :: tasks[id]
  }

  /** ORDER BY due_date, id. */
  predicate DueLe(a: TaskRow, b: TaskRow) {
    var d, e := FromNullable(a.dueDate), FromNullable(b.dueDate);
    Less(d, e) || (d == e && !Less(b.id, a.id))
  }

  lemma DueLeTotalPreorder()
    ensures TotalPreorder(DueLe)
  {
    forall x, y ensures DueLe(x, y) || DueLe(y, x) {
      LessTotal(FromNullable(x.dueDate), FromNullable(y.dueDate));
      LessTotal(x.id, y.id);
      if Less(x.id, y.id) && Less(y.id, x.id) { LessTransitive(x.id, y.id, x.id); LessIrreflexive(x.id); }
    }
    forall x, y, z | DueLe(x, y) && DueLe(y, z) ensures DueLe(x, z) {
      var d, e, f := FromNullable(x.dueDate), FromNullable(y.dueDate), FromNullable(z.dueDate);
      if Less(d, e) && Less(e, f) { LessTransitive(d, e, f); }
      LessIrreflexive(d);
      if d == e == f { NotLessTransitive(z.id, y.id, x.id); }
    }
  }

  function DueOf(r: TaskRow): Date { DateOf(FromNullable(r.dueDate)) }

  /** The due dates of the main tasks are texts of dates. */
  ghost predicate RowsDated(tasks: Tasks) {
    forall id | id in tasks && tasks[id].listId.Some? && tasks[id].dueDate.Some? :: Dated(tasks[id].dueDate.value)
  }

  /** In no row of the result a later date stands before an earlier one. */
  ghost predicate Chronological(rows: seq<TaskRow>) {
    forall i, j | 0 <= i < j < |rows| :: !DateLess(DueOf(rows[j]), DueOf(rows[i]))
  }

  lemma DatedOrder(s: string, t: string)
    requires Dated(s) && Dated(t)
    ensures Less(s, t) <==> (DateLess(DateOf(s), DateOf(t)) <==> SameOrder(DateOf(s).year, DateOf(t).year))
    ensures s == t <==> DateOf(s) == DateOf(t)
  {
    TextOrderIff(DateOf(s), DateOf(t));
  }

  lemma UpcomingRow(tasks: Tasks, from: string, rows: seq<TaskRow>, r: TaskRow)
    requires RowsDated(tasks) && Lists(rows, UpcomingRows(tasks, from)) && r in rows
    ensures r.dueDate.Some? && Dated(r.dueDate.value)
  {
    assert r in UpcomingRows(tasks, from);
  }

  /** With any dates in the table: the result has exactly the undone main tasks dated on or after the
      cutoff, but that a year which `SameOrder` does not admit next to the cutoff's is taken for an earlier
      one; it is chronological exactly if `SameOrder` admits the years in it pairwise. */
  lemma UpcomingOrderIff(rows: seq<TaskRow>, tasks: Tasks, from: string)
    requires DateShaped(from) && RowsDated(tasks)
    requires Lists(rows, UpcomingRows(tasks, from)) && Sorted(rows, DueLe)
    ensures forall id | id in tasks :: tasks[id] in rows <==>
      && tasks[id].listId.Some? && !tasks[id].isDone && tasks[id].dueDate.Some?
      && (DateLess(DueOf(tasks[id]), Fields(from)) <==> !SameOrder(DueOf(tasks[id]).year, Fields(from).year))
    ensures Chronological(rows)
       <==> forall i, j | 0 <= i < j < |rows| :: SameOrder(DueOf(rows[i]).year, DueOf(rows[j]).year)
    ensures forall i, j | 0 <= i < j < |rows| && DueOf(rows[i]) == DueOf(rows[j]) :: !Less(rows[j].id, rows[i].id)
  {
    ShapedIsDated(from);
    forall id | id in tasks && tasks[id].listId.Some? && tasks[id].dueDate.Some?
      ensures Less(tasks[id].dueDate.value, from)
         <==> (DateLess(DueOf(tasks[id]), Fields(from)) <==> SameOrder(DueOf(tasks[id]).year, Fields(from).year))
    {
      DatedOrder(tasks[id].dueDate.value, from);
    }
    forall i, j | 0 <= i < j < |rows|
      ensures var d, e := DueOf(rows[i]), DueOf(rows[j]);
        if d == e then SameOrder(d.year, e.year) && !Less(rows[j].id, rows[i].id)
        else DateLess(e, d) <==> !SameOrder(d.year, e.year)
    {
      UpcomingPair(rows, tasks, from, i, j);
    }
  }

  lemma UpcomingPair(rows: seq<TaskRow>, tasks: Tasks, from: string, i: nat, j: nat)
    requires RowsDated(tasks) && Lists(rows, UpcomingRows(tasks, from)) && Sorted(rows, DueLe) && i < j < |rows|
    ensures var d, e := DueOf(rows[i]), DueOf(rows[j]);
      if d == e then SameOrder(d.year, e.year) && !Less(rows[j].id, rows[i].id)
      else DateLess(e, d) <==> !SameOrder(d.year, e.year)
  {
    UpcomingRow(tasks, from, rows, rows[i]);
    UpcomingRow(tasks, from, rows, rows[j]);
    DatedOrder(rows[i].dueDate.value, rows[j].dueDate.value);
    assert DueLe(rows[i], rows[j]);
  }

  /** With date-shaped dates in the table, the result is exactly the undone main tasks dated on or
      after the cutoff, once each, in chronological order and then by id. */
  lemma UpcomingChronological(rows: seq<TaskRow>, tasks: Tasks, from: string)
    requires DateShaped(from)
    requires forall id | id in tasks && tasks[id].listId.Some? && tasks[id].dueDate.Some? ::
      DateShaped(tasks[id].dueDate.value)
    requires Lists(rows, UpcomingRows(tasks, from)) && Sorted(rows, DueLe)
    ensures forall id | id in tasks :: tasks[id] in rows <==>
      tasks[id].listId.Some? && !tasks[id].isDone && tasks[id].dueDate.Some?
        && !DateLess(Fields(tasks[id].dueDate.value), Fields(from))
    ensures forall i | 0 <= i < |rows| :: rows[i].dueDate.Some? && DateShaped(rows[i].dueDate.value)
    ensures forall i, j | 0 <= i < j < |rows| ::
      var d, e := Fields(rows[i].dueDate.value), Fields(rows[j].dueDate.value);
      !DateLess(e, d) && (d == e ==> !Less(rows[j].id, rows[i].id))
  {
    forall id | id in tasks && tasks[id].listId.Some? && tasks[id].dueDate.Some?
      ensures Less(tasks[id].dueDate.value, from) <==> DateLess(Fields(tasks[id].dueDate.value), Fields(from))
    {
      TextOrderIsDateOrder(tasks[id].dueDate.value, from);
    }
    forall i | 0 <= i < |rows| ensures rows[i].dueDate.Some? && DateShaped(rows[i].dueDate.value) {
      assert rows[i] in rows;
    }
    forall i, j | 0 <= i < j < |rows|
      ensures var d, e := Fields(rows[i].dueDate.value), Fields(rows[j].dueDate.value);
        !DateLess(e, d) && (d == e ==> !Less(rows[j].id, rows[i].id))
    {
      assert DueLe(rows[i], rows[j]);
      TextOrderIsDateOrder(rows[i].dueDate.value, rows[j].dueDate.value);
      TextOrderIsDateOrder(rows[j].dueDate.value, rows[i].dueDate.value);
    }
  }

  // ---- The database ----

  class Database {
    var notes: map<string, NoteRow>
    var lists: map<string, ListRow>
    var tasks: Tasks
    /** Whether statements, beginnings and commits of transactions may fail for reasons of their own. */
    const faulty: bool

    constructor (faulty: bool)
      ensures notes == map[] && lists == map[] && tasks == map[] && this.faulty == faulty
      ensures Tables().Ok()
    {
      notes, lists, tasks := map[], map[], map[];
      this.faulty := faulty;
      EmptyForest();
    }

    /** The tables of the task service, as the runs of `TaskForest` take them. */
    ghost function Tables(): TaskDb
      reads this
    {
      TaskDb(lists, tasks)
    }

    // ---- Notes (database/notes.go) ----

    method InsertNote(row: NoteRow) returns (ok: bool)
      modifies `notes
      ensures ok ==> row.id !in old(notes) && notes == old(notes)[row.id := row]
      ensures !ok ==> notes == old(notes)
      ensures !faulty ==> (ok <==> row.id !in old(notes))
    {
      ok := Reach(faulty);
      if !ok || row.id in notes { return false; }
      notes := notes[row.id := row];
    }

    method GetNote(id: string) returns (r: Outcome<NoteRow>)
      ensures r.Done? ==> id in notes && r.value == notes[id]
      ensures r.NotFound? ==> id !in notes
      ensures !faulty ==> !r.Failed?
    {
      var ok := Reach(faulty);
      if !ok { return Failed; }
      if id !in notes { return NotFound; }
      r := Done(notes[id]);
    }

    method UpdateNote(id: string, title: string, preview: string, updatedAt: int) returns (r: Outcome<()>)
      modifies `notes
      ensures r.Done? ==>
        && id in old(notes)
        && notes == old(notes)[id := old(notes)[id].(title := title, preview := preview, updatedAt := updatedAt)]
      ensures !r.Done? ==> notes == old(notes)
      ensures r.NotFound? ==> id !in old(notes)
      ensures !faulty ==> !r.Failed?
    {
      var ok := Reach(faulty);
      if !ok { return Failed; }
      if id !in notes { return NotFound; }
      notes := notes[id := notes[id].(title := title, preview := preview, updatedAt := updatedAt)];
      r := Done(());
    }

    method DeleteNote(id: string) returns (r: Outcome<bool>)
      modifies `notes
      ensures r.Done? ==> notes == old(notes) - {id} && r.value == (id in old(notes))
      ensures !r.Done? ==> notes == old(notes)
      ensures !faulty ==> r.Done?
      ensures !r.NotFound?
    {
      var ok := Reach(faulty);
      if !ok { return Failed; }
      r := Done(id in notes);
      notes := notes - {id};
    }

    /** Without an ORDER BY the rows come in any order. */
    method ListNotes(dir: string) returns (r: Outcome<seq<NoteRow>>)
      ensures r.Done? ==> Lists(r.value, NotesIn(notes, dir))
      ensures !faulty ==> r.Done?
    {
      var ok := Reach(faulty);
      if !ok { return Failed; }
      var rows := Select(NotesIn(notes, dir), (x: NoteRow, y: NoteRow) => true);
      r := Done(rows);
    }

    // ---- Folders (database/folders.go) ----

    method CountChildrenInDir(dir: string) returns (r: Outcome<nat>)
      ensures r.Done? ==> r.value == |NotesIn(notes, dir)| + |ListsIn(lists, dir)|
      ensures !faulty ==> r.Done?
    {
      var ok := Reach(faulty);
      if !ok { return Failed; }
      r := Done(|NotesIn(notes, dir)| + |ListsIn(lists, dir)|);
    }

    /** All or nothing: the selected notes and lists go, and with the lists their tasks. */
    method DeleteByParentDir(folder: string) returns (ok: bool)
      modifies this
      ensures ok ==> notes == NotesOutside(old(notes), folder) && lists == ListsOutside(old(lists), folder)
                     && tasks == Cascade(lists.Keys, old(tasks))
      ensures !ok ==> notes == old(notes) && lists == old(lists) && tasks == old(tasks)
      ensures ok ==> Tables() == Apply(old(Tables()), Delete(old(lists).Keys - lists.Keys))
      ensures !faulty ==> ok
    {
      var notes0, lists0, tasks0 := notes, lists, tasks;
      var pattern := EscapeLike(folder + "/");
      pattern := pattern + "%";
      DeletesSelected(notes, lists, folder);
      KeptApplied(Tables(), ListsOutside(lists, folder));
      ok := Reach(faulty);
      if ok {
        ok := Reach(faulty);
        if ok {
          notes := NotesNotLike(notes, folder, pattern);
          ok := Reach(faulty);
          if ok {
            lists := ListsNotLike(lists, folder, pattern);
            tasks := Cascade(lists.Keys, tasks);
            ok := Reach(faulty);
          }
        }
      }
      if !ok { notes, lists, tasks := notes0, lists0, tasks0; }
    }

    /** The two UPDATEs of one table. A failure in between is undone by the caller's rollback. */
    method RenameNoteDirs(from: string, to: string, pattern: string) returns (ok: bool)
      requires pattern == Escape(from + "/") + "%"
      modifies `notes
      ensures ok ==> notes == RenamedNotes(old(notes), from, to)
      ensures !faulty ==> ok
    {
      TwoPasses(notes, lists, from, to);
      notes := NotesExact(notes, from, to);
      ok := Reach(faulty);
      if !ok { return; }
      notes := NotesPrefix(notes, pattern, to + "/", ByteLen(from + "/") + 1);
      ok := Reach(faulty);
    }

    method RenameListDirs(from: string, to: string, pattern: string) returns (ok: bool)
      requires pattern == Escape(from + "/") + "%"
      modifies `lists
      ensures ok ==> lists == RenamedLists(old(lists), from, to)
      ensures !faulty ==> ok
    {
      TwoPasses(notes, lists, from, to);
      lists := ListsExact(lists, from, to);
      ok := Reach(faulty);
      if !ok { return; }
      lists := ListsPrefix(lists, pattern, to + "/", ByteLen(from + "/") + 1);
      ok := Reach(faulty);
    }

    /** All or nothing: both passes over both tables. */
    method RenameParentDir(from: string, to: string) returns (ok: bool)
      modifies `notes, `lists
      ensures ok ==> notes == RenamedNotes(old(notes), from, to) && lists == RenamedLists(old(lists), from, to)
      ensures !ok ==> notes == old(notes) && lists == old(lists)
      ensures ok ==> Tables() == Apply(old(Tables()), MoveLists(lists))
      ensures !faulty ==> ok
    {
      var notes0, lists0 := notes, lists;
      var pattern := EscapeLike(from + "/");
      pattern := pattern + "%";
      ok := Reach(faulty);
      if !ok { return; }
      ok := RenameNoteDirs(from, to, pattern);
      if ok { ok := RenameListDirs(from, to, pattern); }
      if ok { ok := Reach(faulty); }
      if !ok { notes, lists := notes0, lists0; }
      assert ok ==> lists.Keys == lists0.Keys;
    }

    // ---- Task lists (database/helpers.go, database/task_lists.go) ----

    /** `insertTask`: inserts a task and its subtasks and appends their rows. */
    method InsertTask(task: TaskParams, listId: Option<string>, parentId: Option<string>, position: nat,
                      rows: seq<TaskRow>)
      returns (ok: bool, rows': seq<TaskRow>)
      modifies `tasks
      ensures ok ==> InsertAll(lists.Keys, old(tasks), Flatten(task, listId, parentId, position)) == Some(tasks)
      ensures ok ==> rows' == rows + Flatten(task, listId, parentId, position)
      ensures !ok && !faulty ==> InsertAll(lists.Keys, old(tasks), Flatten(task, listId, parentId, position)) == None
      ensures !ok ==> Partly(lists.Keys, old(tasks), Flatten(task, listId, parentId, position), tasks)
      decreases task, 1
    {
      var row := RowOf(task, listId, parentId, position);
      rows' := rows;
      ok := Reach(faulty);
      NotYet(lists.Keys, tasks, Flatten(task, listId, parentId, position));
      if !ok || !CanInsert(lists.Keys, tasks, row) { return false, rows'; }
      InsertFirst(lists.Keys, tasks, row, FlattenAll(task.subTasks, None, Some(task.id), 0));
      ghost var before := tasks;
      tasks := tasks[row.id := row];
      ok, rows' := InsertTasks(task.subTasks, None, Some(task.id), rows + [row]);
      if !ok { PartlyFirst(lists.Keys, before, row, FlattenAll(task.subTasks, None, Some(task.id), 0), tasks); }
    }

    /** The loop over a group of tasks, which take the positions 0, 1, ... */
    method InsertTasks(params: seq<TaskParams>, listId: Option<string>, parentId: Option<string>, rows: seq<TaskRow>)
      returns (ok: bool, rows': seq<TaskRow>)
      modifies `tasks
      ensures ok ==> InsertAll(lists.Keys, old(tasks), FlattenAll(params, listId, parentId, 0)) == Some(tasks)
      ensures ok ==> rows' == rows + FlattenAll(params, listId, parentId, 0)
      ensures !ok && !faulty ==> InsertAll(lists.Keys, old(tasks), FlattenAll(params, listId, parentId, 0)) == None
      ensures !ok ==> Partly(lists.Keys, old(tasks), FlattenAll(params, listId, parentId, 0), tasks)
      decreases params, 0
    {
      rows' := rows;
      ok := true;
      for i := 0 to |params|
        invariant ok && InsertAll(lists.Keys, old(tasks), FlattenAll(params[..i], listId, parentId, 0)) == Some(tasks)
        invariant rows' == rows + FlattenAll(params[..i], listId, parentId, 0)
      {
        InsertNext(lists.Keys, old(tasks), params, listId, parentId, i);
        ghost var done, more := FlattenAll(params[..i], listId, parentId, 0), Flatten(params[i], listId, parentId, i);
        assert rows + done + more == rows + (done + more);
        ghost var sofar := tasks;
        ok, rows' := InsertTask(params[i], listId, parentId, i, rows');
        if !ok {
          PartlyNext(lists.Keys, old(tasks), params, listId, parentId, i, sofar, tasks);
          return;
        }
      }
      assert params[..|params|] == params;
    }

    method CreateTaskList(list: ListRow, params: seq<TaskParams>) returns (r: Outcome<seq<TaskRow>>)
      modifies `lists, `tasks
      ensures r.Done? ==> list.id !in old(lists) && lists == old(lists)[list.id := list]
                          && InsertTree(lists.Keys, old(tasks), list.id, params) == Some(tasks)
                          && r.value == FlattenAll(params, Some(list.id), None, 0)
      ensures !r.Done? ==> lists == old(lists) && tasks == old(tasks)
      ensures !faulty ==>
        (r.Done? <==>
          list.id !in old(lists) && InsertTree(old(lists).Keys + {list.id}, old(tasks), list.id, params).Some?)
      ensures r.Done? || !faulty ==>
        forall tree | params == AllParams(tree) :: Tables() == Apply(old(Tables()), Create(list, tree))
    {
      var lists0, tasks0 := lists, tasks;
      r := Failed;
      var ok := Reach(faulty);
      if !ok { return; }
      ok := Reach(faulty);
      if !ok || list.id in lists { return; }
      lists := lists[list.id := list];
      assert lists.Keys == lists0.Keys + {list.id};
      var rows;
      ok, rows := InsertTasks(params, Some(list.id), None, []);
      if ok {
        ok := Reach(faulty);
        if ok { return Done(rows); }
      }
      lists, tasks := lists0, tasks0;
    }

    /** `UpdateTaskList`: all or nothing. */
    method UpdateTaskList(id: string, title: string, isAutoDelete: bool, updatedAt: int, params: seq<TaskParams>)
      returns (r: Outcome<ListRow>)
      modifies `lists, `tasks
      ensures r.Done? ==>
        && id in old(lists) && lists == old(lists)[id := r.value]
        && r.value == old(lists)[id].(title := title, isAutoDelete := isAutoDelete, updatedAt := updatedAt)
        && ReplaceTree(old(lists).Keys, old(tasks), id, params) == Some(tasks)
      ensures !r.Done? ==> lists == old(lists) && tasks == old(tasks)
      ensures r.NotFound? ==> id !in old(lists)
      ensures !faulty ==> (r.Done? <==> id in old(lists) && ReplaceTree(old(lists).Keys, old(tasks), id, params).Some?)
      ensures !faulty ==> (r.NotFound? <==> id !in old(lists))
      ensures r.Done? || !faulty ==>
        forall tree | params == AllParams(tree) ::
          Tables() == Apply(old(Tables()), Replace(id, title, isAutoDelete, updatedAt, tree))
    {
      var lists0, tasks0 := lists, tasks;
      r := Failed;
      var ok := Reach(faulty);
      if !ok { return; }
      ok := Reach(faulty);
      if !ok { return; }
      if id !in lists { return NotFound; }
      var row := lists[id].(title := title, isAutoDelete := isAutoDelete, updatedAt := updatedAt);
      ok := Reach(faulty);
      if !ok { return; }
      lists := lists[id := row];
      assert lists.Keys == lists0.Keys;
      ok := Reach(faulty);
      if ok {
        var kept := map k | k in tasks && !Selected(tasks, id, tasks[k]) :: tasks[k];
        assert kept == Without(tasks0, {id});
        tasks := Cascade(lists.Keys, kept);
        var rows;
        ok, rows := InsertTasks(params, Some(id), None, []);
        if ok {
          ok := Reach(faulty);
          if ok { return Done(row); }
        }
      }
      lists, tasks := lists0, tasks0;
    }

    method DeleteTaskList(id: string) returns (r: Outcome<bool>)
      modifies `lists, `tasks
      ensures r.Done? ==> r.value == (id in old(lists)) && lists == old(lists) - {id}
      ensures r.Done? ==> tasks == if r.value then Cascade(lists.Keys, old(tasks)) else old(tasks)
      ensures !r.Done? ==> lists == old(lists) && tasks == old(tasks)
      ensures r.Done? && old(Tables()).Ok() ==> Tables() == Apply(old(Tables()), Delete({id}))
      ensures !faulty ==> r.Done?
    {
      var ok := Reach(faulty);
      if !ok { return Failed; }
      r := Done(id in lists);
      assert id !in lists ==> lists - {id} == lists;
      if Tables().Ok() { CascadeStable(lists.Keys, tasks); }
      if id in lists {
        lists := lists - {id};
        tasks := Cascade(lists.Keys, tasks);
      }
    }

    /** `queryTasksByTaskListId`. */
    method QueryTasks(l: string) returns (r: Outcome<seq<TaskRow>>)
      ensures r.Done? ==> QueryResult(r.value, tasks, l)
      ensures !faulty ==> r.Done?
      ensures !r.NotFound?
    {
      var ok := Reach(faulty);
      if !ok { return Failed; }
      KeyLeTotalPreorder();
      var rows := Select(SelectedRows(tasks, l), KeyLe);
      r := Done(rows);
    }

    method GetTaskList(id: string) returns (r: Outcome<(ListRow, seq<TaskRow>)>)
      ensures r.Done? ==> id in lists && r.value.0 == lists[id] && QueryResult(r.value.1, tasks, id)
      ensures r.NotFound? ==> id !in lists
      ensures !faulty ==> !r.Failed?
    {
      var ok := Reach(faulty);
      if !ok { return Failed; }
      if id !in lists { return NotFound; }
      var rows := QueryTasks(id);
      if !rows.Done? { return Failed; }
      r := Done((lists[id], rows.value));
    }

    /** The lists of a directory, and for each the rows of its own query. */
    method ListTaskLists(dir: string) returns (r: Outcome<(seq<ListRow>, map<string, seq<TaskRow>>)>)
      ensures r.Done? ==> Lists(r.value.0, ListsIn(lists, dir))
      ensures r.Done? ==>
        forall list | list in r.value.0 :: list.id in r.value.1 && QueryResult(r.value.1[list.id], tasks, list.id)
      ensures !faulty ==> r.Done?
    {
      var ok := Reach(faulty);
      if !ok { return Failed; }
      var found := Select(ListsIn(lists, dir), (x: ListRow, y: ListRow) => true);
      var tasksByList: map<string, seq<TaskRow>> := map[];
      for i := 0 to |found|
        invariant forall k | 0 <= k < i :: found[k].id in tasksByList
        invariant forall l | l in tasksByList :: QueryResult(tasksByList[l], tasks, l)
      {
        var rows := QueryTasks(found[i].id);
        if !rows.Done? { return Failed; }
        tasksByList := tasksByList[found[i].id := rows.value];
      }
      r := Done((found, tasksByList));
    }

    method GetMainTask(id: string) returns (r: Outcome<(TaskRow, seq<TaskRow>)>)
      ensures r.Done? ==> id in tasks && tasks[id].listId.Some? && r.value.0 == tasks[id]
                          && Lists(r.value.1, SubsOf(tasks, id)) && Sorted(r.value.1, PositionLe)
      ensures r.NotFound? ==> id !in tasks || tasks[id].listId.None?
      ensures !faulty ==> !r.Failed?
    {
      var ok := Reach(faulty);
      if !ok { return Failed; }
      if id !in tasks || tasks[id].listId.None? { return NotFound; }
      ok := Reach(faulty);
      if !ok { return Failed; }
      var subs := Select(SubsOf(tasks, id), PositionLe);
      r := Done((tasks[id], subs));
    }

    /** The lists of a directory with their counts, from one aggregate query. */
    method ListTaskListsWithCounts(dir: string) returns (r: Outcome<seq<CountedList>>)
      ensures r.Done? ==> Lists(r.value, set list | list in ListsIn(lists, dir) :: Counted(tasks, list))
      ensures !faulty ==> r.Done?
    {
      var ok := Reach(faulty);
      if !ok { return Failed; }
      var counted := set list | list in ListsIn(lists, dir) :: Counted(tasks, list);
      var rows := Select(counted, (x: CountedList, y: CountedList) => true);
      r := Done(rows);
    }

    method ListUpcomingMainTasks(from: string) returns (r: Outcome<seq<TaskRow>>)
      ensures r.Done? ==> Lists(r.value, UpcomingRows(tasks, from)) && Sorted(r.value, DueLe)
      ensures !faulty ==> r.Done?
    {
      var ok := Reach(faulty);
      if !ok { return Failed; }
      DueLeTotalPreorder();
      var rows := Select(UpcomingRows(tasks, from), DueLe);
      r := Done(rows);
    }
  }

  /** Some of the rows are inserted, from the first on. */
  ghost predicate Partly(listIds: set<string>, tasks: Tasks, rows: seq<TaskRow>, m: Tasks) {
    exists k :: 0 <= k <= |rows| && InsertAll(listIds, tasks, rows[..k]) == Some(m)
  }

  lemma NotYet(listIds: set<string>, tasks: Tasks, rows: seq<TaskRow>)
    ensures Partly(listIds, tasks, rows, tasks)
  {
    assert rows[..0] == [];
  }

  lemma PartlyFirst(listIds: set<string>, tasks: Tasks, row: TaskRow, rest: seq<TaskRow>, m: Tasks)
    requires CanInsert(listIds, tasks, row) && Partly(listIds, tasks[row.id := row], rest, m)
    ensures Partly(listIds, tasks, [row] + rest, m)
  {
    var k :| 0 <= k <= |rest| && InsertAll(listIds, tasks[row.id := row], rest[..k]) == Some(m);
    InsertFirst(listIds, tasks, row, rest[..k]);
    assert ([row] + rest)[..k + 1] == [row] + rest[..k];
  }

  lemma PartlyAfter(listIds: set<string>, tasks: Tasks, done: seq<TaskRow>, more: seq<TaskRow>, rest: seq<TaskRow>,
                    sofar: Tasks, m: Tasks)
    requires InsertAll(listIds, tasks, done) == Some(sofar) && Partly(listIds, sofar, more, m)
    ensures Partly(listIds, tasks, done + more + rest, m)
  {
    var k :| 0 <= k <= |more| && InsertAll(listIds, sofar, more[..k]) == Some(m);
    InsertAllConcat(listIds, tasks, done, more[..k]);
    assert (done + more + rest)[..|done| + k] == done + more[..k];
  }

  lemma PartlyNext(listIds: set<string>, tasks: Tasks, ts: seq<TaskParams>, listId: Option<string>,
                   parentId: Option<string>, i: nat, sofar: Tasks, m: Tasks)
    requires i < |ts| && InsertAll(listIds, tasks, FlattenAll(ts[..i], listId, parentId, 0)) == Some(sofar)
    requires Partly(listIds, sofar, Flatten(ts[i], listId, parentId, i), m)
    ensures Partly(listIds, tasks, FlattenAll(ts, listId, parentId, 0), m)
  {
    var done, more, rest := FlattenAll(ts[..i], listId, parentId, 0), Flatten(ts[i], listId, parentId, i),
        FlattenAll(ts[i + 1..], listId, parentId, i + 1);
    SplitAt(ts, i);
    FlattenSnoc(ts[..i], ts[i], listId, parentId, 0);
    FlattenConcat(ts[..i + 1], ts[i + 1..], listId, parentId, 0);
    PartlyAfter(listIds, tasks, done, more, rest, sofar, m);
  }

  lemma InsertFirst(listIds: set<string>, tasks: Tasks, row: TaskRow, rest: seq<TaskRow>)
    requires CanInsert(listIds, tasks, row)
    ensures InsertAll(listIds, tasks, [row] + rest) == InsertAll(listIds, tasks[row.id := row], rest)
  {
    assert ([row] + rest)[1..] == rest;
  }

  /** One more task in the loop: its rows follow those inserted so far, and if it is refused, so is the whole. */
  lemma InsertNext(listIds: set<string>, tasks: Tasks, ts: seq<TaskParams>, listId: Option<string>,
                   parentId: Option<string>, i: nat)
    requires i < |ts| && InsertAll(listIds, tasks, FlattenAll(ts[..i], listId, parentId, 0)).Some?
    ensures var m := InsertAll(listIds, tasks, FlattenAll(ts[..i], listId, parentId, 0)).value;
      var next := InsertAll(listIds, m, Flatten(ts[i], listId, parentId, i));
      && InsertAll(listIds, tasks, FlattenAll(ts[..i + 1], listId, parentId, 0)) == next
      && (next.None? ==> InsertAll(listIds, tasks, FlattenAll(ts, listId, parentId, 0)) == None)
    ensures FlattenAll(ts[..i + 1], listId, parentId, 0)
        == FlattenAll(ts[..i], listId, parentId, 0) + Flatten(ts[i], listId, parentId, i)
  {
    SplitAt(ts, i);
    FlattenSnoc(ts[..i], ts[i], listId, parentId, 0);
    InsertAllConcat(listIds, tasks, FlattenAll(ts[..i], listId, parentId, 0), Flatten(ts[i], listId, parentId, i));
    FlattenConcat(ts[..i + 1], ts[i + 1..], listId, parentId, 0);
    InsertAllConcat(listIds, tasks, FlattenAll(ts[..i + 1], listId, parentId, 0),
        FlattenAll(ts[i + 1..], listId, parentId, i + 1));
  }

  lemma SplitAt<T>(xs: seq<T>, i: nat)
    requires i < |xs|
    ensures xs[..i + 1] == xs[..i] + [xs[i]] && xs[..i + 1] + xs[i + 1..] == xs
  {}

  lemma {:induction false} FlattenConcat(a: seq<TaskParams>, b: seq<TaskParams>, listId: Option<string>,
                                         parentId: Option<string>, from: nat)
    ensures FlattenAll(a + b, listId, parentId, from)
        == FlattenAll(a, listId, parentId, from) + FlattenAll(b, listId, parentId, from + |a|)
    decreases |a|
  {
    if a == [] {
      assert a + b == b;
    } else {
      FlattenConcat(a[1..], b, listId, parentId, from + 1);
      ConcatTail(a, b);
      ConcatAssoc(Flatten(a[0], listId, parentId, from), FlattenAll(a[1..], listId, parentId, from + 1),
          FlattenAll(b, listId, parentId, from + |a|));
    }
  }
}
