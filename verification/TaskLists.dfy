/** The task service: its handlers over the database, which together keep one map from list id
    to task tree. Every reading handler shows exactly that map. */
module TaskLists {
  import opened Strings
  import opened Rows
  import opened OrderBy
  import opened Paths
  import opened NotePaths
  import opened Dates
  import opened TaskTree
  import opened TaskRoundTrip
  import opened TaskStore
  import opened TaskForest
  import opened TaskUpdate
  import opened D = Database
  import K = Disk

  type Trees = map<string, seq<MainTask>>

  /** The tables hold exactly these trees, one for each list, in a two-level forest. */
  ghost predicate Holds(lists: map<string, ListRow>, tasks: Tasks, trees: Trees) {
    && Forest(lists.Keys, tasks)
    && trees.Keys == lists.Keys
    && (forall l | l in lists :: lists[l].id == l)
    && (forall l | l in trees :: Stored(tasks, l, trees[l]))
  }

  lemma EmptyHolds()
    ensures Holds(map[], map[], map[])
  {}

  /** A list whose selected rows did not change still holds its tree. */
  lemma StoredTransfer(listIds: set<string>, listIds': set<string>, tasks: Tasks, m: Tasks, l: string,
                       ts: seq<MainTask>)
    requires Forest(listIds, tasks) && Forest(listIds', m)
    requires Stored(tasks, l, ts) && SelectedRows(m, l) == SelectedRows(tasks, l)
    ensures Stored(m, l, ts)
  {
    forall r | r in TreeRows(l, ts) ensures r.id in m && m[r.id] == r {
      assert r in SelectedRows(m, l);
      var id :| id in m && Selected(m, l, m[id]) && m[id] == r;
      assert RowOk(listIds', m, id);
    }
  }

  // ---- What the handlers do to the trees ----

  lemma CreateHolds(lists: map<string, ListRow>, tasks: Tasks, trees: Trees, list: ListRow, ts: seq<MainTask>, m: Tasks)
    requires Holds(lists, tasks, trees) && list.id !in lists
    requires InsertTree(lists.Keys + {list.id}, tasks, list.id, AllParams(ts)) == Some(m)
    ensures Holds(lists[list.id := list], m, trees[list.id := ts])
  {
    var listIds := lists.Keys + {list.id};
    assert lists[list.id := list].Keys == listIds;
    NothingOwned(lists.Keys, tasks, list.id);
    InsertTreeStores(listIds, tasks, list.id, ts);
    forall l | l in trees ensures Stored(m, l, trees[l]) { StoredTransfer(lists.Keys, listIds, tasks, m, l, trees[l]); }
  }

  lemma ReplaceHolds(lists: map<string, ListRow>, tasks: Tasks, trees: Trees, row: ListRow, ts: seq<MainTask>, m: Tasks)
    requires Holds(lists, tasks, trees) && row.id in lists
    requires ReplaceTree(lists.Keys, tasks, row.id, AllParams(ts)) == Some(m)
    ensures Holds(lists[row.id := row], m, trees[row.id := ts])
  {
    assert lists[row.id := row].Keys == lists.Keys;
    ReplaceTreeStores(lists.Keys, tasks, row.id, ts);
    forall l | l in trees && l != row.id
      ensures Stored(m, l, trees[l])
    {
      StoredTransfer(lists.Keys, lists.Keys, tasks, m, l, trees[l]);
    }
  }

  lemma DeleteHolds(lists: map<string, ListRow>, tasks: Tasks, trees: Trees, gone: set<string>)
    requires Holds(lists, tasks, trees)
    ensures Holds(lists - gone, Cascade((lists - gone).Keys, tasks), trees - gone)
  {
    assert (lists - gone).Keys == lists.Keys - gone;
    CascadeDeletesOwned(lists.Keys, tasks, gone);
    WithoutKeepsForest(lists.Keys, tasks, gone);
    WithoutSelects(lists.Keys, tasks, gone);
    var m := Without(tasks, gone);
    forall l | l in trees && l !in gone ensures Stored(m, l, trees[l]) {
      StoredTransfer(lists.Keys, lists.Keys - gone, tasks, m, l, trees[l]);
    }
  }

  /** A folder rename rewrites directories only: the trees stay. */
  lemma RenameHolds(lists: map<string, ListRow>, tasks: Tasks, trees: Trees, from: string, to: string)
    requires Holds(lists, tasks, trees)
    ensures Holds(RenamedLists(lists, from, to), tasks, trees)
  {
    assert RenamedLists(lists, from, to).Keys == lists.Keys;
  }

  /** A folder delete takes exactly the trees of the lists it selects. */
  lemma FolderDeleteHolds(lists: map<string, ListRow>, tasks: Tasks, trees: Trees, folder: string)
    requires Holds(lists, tasks, trees)
    ensures var kept := ListsOutside(lists, folder);
      Holds(kept, Cascade(kept.Keys, tasks), map l | l in trees && l in kept :: trees[l])
  {
    var kept := ListsOutside(lists, folder);
    var gone := lists.Keys - kept.Keys;
    DeleteHolds(lists, tasks, trees, gone);
    assert kept == lists - gone;
    assert trees - gone == map l | l in trees && l in kept :: trees[l];
  }

  // ---- Ids ----

  /** Subtask ids, filled in: given ids stay, empty ones are new, nothing else changes. */
  ghost predicate SubIdsFilled(submitted: seq<SubTask>, filled: seq<SubTask>) {
    |filled| == |submitted| && forall j | 0 <= j < |filled| ::
      && filled[j].(id := submitted[j].id) == submitted[j]
      && if submitted[j].id != "" then filled[j].id == submitted[j].id else IsUuidV4(filled[j].id)
  }

  /** The same for a whole submitted task. */
  ghost predicate IdsFilled(submitted: MainTask, t: MainTask) {
    && t.(id := submitted.id, subTasks := submitted.subTasks) == submitted
    && (if submitted.id != "" then t.id == submitted.id else IsUuidV4(t.id))
    && SubIdsFilled(submitted.subTasks, t.subTasks)
  }

  ghost predicate AllIdsFilled(submitted: seq<MainTask>, ts: seq<MainTask>) {
    |ts| == |submitted| && forall i | 0 <= i < |ts| :: IdsFilled(submitted[i], ts[i])
  }

  ghost predicate ValidIds(t: MainTask) {
    (t.id == "" || IsUuidV4(t.id)) && forall j | 0 <= j < |t.subTasks| ::
      t.subTasks[j].id == "" || IsUuidV4(t.subTasks[j].id)
  }

  /** `uuid.NewString`: the k-th id drawn. */
  type NewIds = nat -> string

  /** The inner loop of the validate-and-assign loop. */
  method AssignSubIds(subTasks: seq<SubTask>, newIds: NewIds, from: nat)
    returns (ok: bool, filled: seq<SubTask>, drawn: nat)
    requires forall k :: IsUuidV4(newIds(k))
    ensures ok <==> forall j | 0 <= j < |subTasks| :: subTasks[j].id == "" || IsUuidV4(subTasks[j].id)
    ensures ok ==> SubIdsFilled(subTasks, filled)
  {
    filled, drawn := subTasks, from;
    for j := 0 to |subTasks|
      invariant |filled| == |subTasks| && SubIdsFilled(subTasks[..j], filled[..j]) && filled[j..] == subTasks[j..]
      invariant forall k | 0 <= k < j :: subTasks[k].id == "" || IsUuidV4(subTasks[k].id)
    {
      var subTask := subTasks[j];
      if subTask.id != "" {
        if !IsUuidV4(subTask.id) { return false, filled, drawn; }
      } else {
        filled := filled[j := subTask.(id := newIds(drawn))];
        drawn := drawn + 1;
      }
    }
    ok := true;
    assert subTasks[..|subTasks|] == subTasks && filled[..|subTasks|] == filled;
  }

  /** The validate-and-assign loop of `UpdateTaskList`: in place, stopping at the first malformed id. */
  method AssignIds(tasks: array<MainTask>, newIds: NewIds) returns (ok: bool)
    requires forall k :: IsUuidV4(newIds(k))
    modifies tasks
    ensures ok <==> forall i | 0 <= i < tasks.Length :: ValidIds(old(tasks[i]))
    ensures ok ==> AllIdsFilled(old(tasks[..]), tasks[..])
  {
    var drawn := 0;
    for i := 0 to tasks.Length
      invariant forall k | 0 <= k < i :: ValidIds(old(tasks[k])) && IdsFilled(old(tasks[k]), tasks[k])
      invariant forall k | i <= k < tasks.Length :: tasks[k] == old(tasks[k])
    {
      var mainTask := tasks[i];
      if mainTask.id != "" {
        if !IsUuidV4(mainTask.id) { return false; }
      } else {
        tasks[i] := tasks[i].(id := newIds(drawn));
        drawn := drawn + 1;
      }
      var subsOk, subTasks;
      subsOk, subTasks, drawn := AssignSubIds(mainTask.subTasks, newIds, drawn);
      if !subsOk { return false; }
      tasks[i] := tasks[i].(subTasks := subTasks);
    }
    ok := true;
  }

  // ---- Handlers ----

  /** `pb.TaskList`. */
  datatype TaskList = TaskList(id: string, parentDir: string, title: string, tasks: seq<MainTask>, updatedAt: int,
      isAutoDelete: bool)

  function ViewOf(row: ListRow, tasks: seq<MainTask>): TaskList {
    TaskList(row.id, row.parentDir, row.title, tasks, row.updatedAt, row.isAutoDelete)
  }

  const MAX_TASK_DESCRIPTION_BYTES := 1024
  const MAX_SUBTASK_DESCRIPTION_BYTES := 1024
  const MAX_TASKS_PER_LIST := 1000
  const MAX_SUBTASKS_PER_TASK := 100

  /** `ValidateRRule`: whether the recurrence engine can parse a rule. */
  type ValidRule = string -> bool

  /** `validateTasks`. */
  predicate ValidTasks(ts: seq<MainTask>, validRule: ValidRule) {
    && |ts| <= MAX_TASKS_PER_LIST
    && forall t | t in ts ::
      && ByteLen(t.description) <= MAX_TASK_DESCRIPTION_BYTES
      && |t.subTasks| <= MAX_SUBTASKS_PER_TASK
      && (forall st | st in t.subTasks :: ByteLen(st.description) <= MAX_SUBTASK_DESCRIPTION_BYTES)
      && (t.dueDate != "" ==> DateShaped(t.dueDate))
      && (t.recurrence != "" ==> t.dueDate != "" && validRule(t.recurrence))
  }

  /** The requests that `UpdateTaskList` finds valid, limit by limit. */
  lemma AcceptsUpdateIff(id: string, title: string, submitted: seq<MainTask>, validRule: ValidRule)
    ensures AcceptsUpdate(id, title, submitted, validRule) <==>
      && IsUuidV4(id) && ValidName(title) && |submitted| <= 1000
      && (forall t | t in submitted ::
            && (t.id == "" || IsUuidV4(t.id)) && ByteLen(t.description) <= 1024 && |t.subTasks| <= 100
            && (t.dueDate == "" || DateShaped(t.dueDate))
            && (t.recurrence == "" || (t.dueDate != "" && validRule(t.recurrence))))
      && (forall t, st | t in submitted && st in t.subTasks ::
            (st.id == "" || IsUuidV4(st.id)) && ByteLen(st.description) <= 1024)
  {
    forall t | t in submitted
      ensures ValidIds(t) <==>
        (t.id == "" || IsUuidV4(t.id)) && forall st | st in t.subTasks :: st.id == "" || IsUuidV4(st.id)
    {}
  }

  /** The requests that `CreateTaskList` finds valid; the ids in them do not matter. */
  lemma AcceptsCreateIff(parentDir: string, title: string, submitted: seq<MainTask>, validRule: ValidRule)
    ensures AcceptsCreate(parentDir, title, submitted, validRule) <==>
      && Accepted(parentDir) && ValidName(title) && |submitted| <= 1000
      && (forall t | t in submitted ::
            && ByteLen(t.description) <= 1024 && |t.subTasks| <= 100
            && (t.dueDate == "" || DateShaped(t.dueDate))
            && (t.recurrence == "" || (t.dueDate != "" && validRule(t.recurrence))))
      && (forall t, st | t in submitted && st in t.subTasks :: ByteLen(st.description) <= 1024)
  {}

  lemma ValidShaped(ts: seq<MainTask>, validRule: ValidRule)
    requires ValidTasks(ts, validRule)
    ensures AllShaped(ts)
  {}

  /** Filling in ids keeps tasks valid. */
  lemma FilledValid(submitted: seq<MainTask>, ts: seq<MainTask>, validRule: ValidRule)
    requires ValidTasks(submitted, validRule) && AllIdsFilled(submitted, ts)
    ensures ValidTasks(ts, validRule)
  {
    forall t | t in ts
      ensures ByteLen(t.description) <= MAX_TASK_DESCRIPTION_BYTES && |t.subTasks| <= MAX_SUBTASKS_PER_TASK
      ensures forall st | st in t.subTasks :: ByteLen(st.description) <= MAX_SUBTASK_DESCRIPTION_BYTES
      ensures t.dueDate != "" ==> DateShaped(t.dueDate)
      ensures t.recurrence != "" ==> t.dueDate != "" && validRule(t.recurrence)
    {
      var i :| 0 <= i < |ts| && ts[i] == t;
      var u := submitted[i];
      assert u in submitted && IdsFilled(u, t);
      forall st | st in t.subTasks ensures ByteLen(st.description) <= MAX_SUBTASK_DESCRIPTION_BYTES {
        var j :| 0 <= j < |t.subTasks| && t.subTasks[j] == st;
        assert u.subTasks[j] in u.subTasks && st.description == u.subTasks[j].description;
      }
    }
  }

  lemma ClearedValid(ts: seq<MainTask>, validRule: ValidRule)
    requires ValidTasks(ts, validRule)
    ensures ValidTasks(ClearAllIds(ts), validRule)
  {
    forall t | t in ClearAllIds(ts) ensures exists i :: 0 <= i < |ts| && t == ClearIds(ts[i]) && ts[i] in ts {
      var i :| 0 <= i < |ts| && ClearAllIds(ts)[i] == t;
      assert ts[i] in ts;
    }
    forall t | t in ClearAllIds(ts)
      ensures forall st | st in t.subTasks :: ByteLen(st.description) <= MAX_SUBTASK_DESCRIPTION_BYTES
    {
      var i :| 0 <= i < |ts| && t == ClearIds(ts[i]) && ts[i] in ts;
      forall st | st in t.subTasks ensures ByteLen(st.description) <= MAX_SUBTASK_DESCRIPTION_BYTES {
        var j :| 0 <= j < |t.subTasks| && t.subTasks[j] == st;
        assert ts[i].subTasks[j] in ts[i].subTasks;
      }
    }
  }

  datatype Reply<+T> = Ok(value: T) | Invalid | NoSuchDir | NoSuchList | Internal

  method NewArray(ts: seq<MainTask>) returns (a: array<MainTask>)
    ensures fresh(a) && a[..] == ts
  {
    a := new MainTask[|ts|](i requires 0 <= i < |ts| => ts[i]);
  }

  /** On creation every task gets a new id, whatever the request says. */
  function ClearIds(t: MainTask): MainTask {
    t.(id := "", subTasks := seq(|t.subTasks|, j requires 0 <= j < |t.subTasks| => t.subTasks[j].(id := "")))
  }

  function ClearAllIds(ts: seq<MainTask>): seq<MainTask> {
    seq(|ts|, i requires 0 <= i < |ts| => ClearIds(ts[i]))
  }

  /** The inner loop of `CreateTaskList`: a new id for every subtask, and its parameters. */
  method NewSubTasks(subTasks: seq<SubTask>, newIds: NewIds, from: nat)
    returns (filled: seq<SubTask>, params: seq<TaskParams>, drawn: nat)
    ensures |filled| == |params| == |subTasks| && drawn == from + |subTasks|
    ensures forall j | 0 <= j < |subTasks| ::
      filled[j].(id := subTasks[j].id) == subTasks[j] && filled[j].id == newIds(from + j)
        && params[j] == SubParams(filled[j])
  {
    filled, params, drawn := subTasks, [], from;
    for j := 0 to |subTasks|
      invariant |filled| == |subTasks| && |params| == j && drawn == from + j
      invariant forall k | 0 <= k < |subTasks| :: filled[k].(id := subTasks[k].id) == subTasks[k]
      invariant forall k | 0 <= k < j :: filled[k].id == newIds(from + k) && params[k] == SubParams(filled[k])
    {
      var subTask, subTaskId := subTasks[j], newIds(drawn);
      drawn := drawn + 1;
      filled := filled[j := filled[j].(id := subTaskId)];
      params := params + [TaskParams(subTaskId, subTask.description, subTask.isDone, None, None, [])];
    }
  }

  /** The rows carry consecutive drawn ids. */
  ghost predicate RowsDrawn(rows: seq<TaskRow>, newIds: NewIds, from: nat) {
    forall k | 0 <= k < |rows| :: rows[k].id == newIds(from + k)
  }

  /** The rows of the parameters carry the first `drawn` ids, in the order they were drawn. */
  ghost predicate DrawnInOrder(params: seq<TaskParams>, l: string, newIds: NewIds, drawn: nat) {
    |FlattenAll(params, Some(l), None, 0)| == drawn && RowsDrawn(FlattenAll(params, Some(l), None, 0), newIds, 0)
  }

  /** The ids of one new task: its own, then its subtasks'. */
  ghost predicate DrawnFrom(p: TaskParams, newIds: NewIds, from: nat) {
    p.id == newIds(from) && forall j | 0 <= j < |p.subTasks| ::
      p.subTasks[j].subTasks == [] && p.subTasks[j].id == newIds(from + 1 + j)
  }

  /** A created task is the submitted one, but that it and its subtasks have new ids. */
  lemma NewIdsOnly(submitted: seq<MainTask>, ts: seq<MainTask>)
    requires AllIdsFilled(ClearAllIds(submitted), ts)
    ensures |ts| == |submitted| && forall i | 0 <= i < |ts| ::
      && ts[i].(id := submitted[i].id, subTasks := submitted[i].subTasks) == submitted[i] && IsUuidV4(ts[i].id)
      && |ts[i].subTasks| == |submitted[i].subTasks|
    ensures forall i, j | 0 <= i < |ts| && 0 <= j < |ts[i].subTasks| ::
      var st, u := submitted[i].subTasks[j], ts[i].subTasks[j];
      IsUuidV4(u.id) && u.description == st.description && u.isDone == st.isDone
  {
    forall i | 0 <= i < |ts|
      ensures ts[i].(id := submitted[i].id, subTasks := submitted[i].subTasks) == submitted[i] && IsUuidV4(ts[i].id)
      ensures SubIdsFilled(ClearIds(submitted[i]).subTasks, ts[i].subTasks)
    {
      assert IdsFilled(ClearAllIds(submitted)[i], ts[i]);
    }
  }

  lemma DrawnRows(p: TaskParams, newIds: NewIds, from: nat, l: string, i: nat)
    requires DrawnFrom(p, newIds, from)
    ensures |Flatten(p, Some(l), None, i)| == 1 + |p.subTasks| && RowsDrawn(Flatten(p, Some(l), None, i), newIds, from)
  {
    SubRows(p.subTasks, p.id, 0);
    forall k | 0 < k < 1 + |p.subTasks| ensures Flatten(p, Some(l), None, i)[k].id == newIds(from + k) {
      assert p.subTasks[k - 1].id == newIds(from + 1 + (k - 1));
    }
  }

  lemma AppendDrawn(a: seq<TaskRow>, b: seq<TaskRow>, newIds: NewIds)
    requires RowsDrawn(a, newIds, 0) && RowsDrawn(b, newIds, |a|)
    ensures RowsDrawn(a + b, newIds, 0)
  {
    forall k | |a| <= k < |a| + |b|
      ensures (a + b)[k].id == newIds(k)
    {
      assert b[k - |a|].id == newIds(|a| + (k - |a|));
    }
  }

  lemma DrawnNext(params: seq<TaskParams>, p: TaskParams, l: string, newIds: NewIds, drawn: nat)
    requires DrawnInOrder(params, l, newIds, drawn) && DrawnFrom(p, newIds, drawn)
    ensures DrawnInOrder(params + [p], l, newIds, drawn + 1 + |p.subTasks|)
  {
    var a, b, c := FlattenAll(params, Some(l), None, 0), Flatten(p, Some(l), None, |params|),
        FlattenAll(params + [p], Some(l), None, 0);
    assert c == a + b by { FlattenSnoc(params, p, Some(l), None, 0); }
    assert |b| == 1 + |p.subTasks| && RowsDrawn(b, newIds, drawn) by { DrawnRows(p, newIds, drawn, l, |params|); }
    assert RowsDrawn(c, newIds, 0) by { AppendDrawn(a, b, newIds); }
  }

  /** One step of the outer loop: the task with new ids, and its parameters, with "" as NULL. */
  method NewTask(mainTask: MainTask, newIds: NewIds, from: nat)
    returns (filled: MainTask, params: TaskParams, drawn: nat)
    requires forall k :: IsUuidV4(newIds(k))
    ensures IdsFilled(ClearIds(mainTask), filled) && params == MainParams(filled)
    ensures drawn == from + 1 + |params.subTasks|
    ensures DrawnFrom(params, newIds, from)
  {
    var mainTaskId := newIds(from);
    var subTasks, subParams;
    subTasks, subParams, drawn := NewSubTasks(mainTask.subTasks, newIds, from + 1);
    filled := mainTask.(id := mainTaskId, subTasks := subTasks);
    assert subParams == MainParams(filled).subTasks;
    params := TaskParams(mainTaskId, mainTask.description, mainTask.isDone,
                         if mainTask.dueDate != "" then Some(mainTask.dueDate) else None,
                         if mainTask.recurrence != "" then Some(mainTask.recurrence) else None, subParams);
  }

  /** The outer loop, in place. */
  method NewTasks(tasks: array<MainTask>, newIds: NewIds, ghost l: string) returns (params: seq<TaskParams>)
    requires forall k :: IsUuidV4(newIds(k))
    modifies tasks
    ensures AllIdsFilled(ClearAllIds(old(tasks[..])), tasks[..])
    ensures params == AllParams(tasks[..]) && exists drawn :: DrawnInOrder(params, l, newIds, drawn)
  {
    params := [];
    var drawn := 0;
    for i := 0 to tasks.Length
      invariant |params| == i && DrawnInOrder(params, l, newIds, drawn)
      invariant forall k | 0 <= k < i ::
        IdsFilled(ClearIds(old(tasks[k])), tasks[k]) && params[k] == MainParams(tasks[k])
      invariant forall k | i <= k < tasks.Length :: tasks[k] == old(tasks[k])
    {
      var filled, task, next := NewTask(tasks[i], newIds, drawn);
      tasks[i] := filled;
      DrawnNext(params, task, l, newIds, drawn);
      drawn := next;
      params := params + [task];
    }
  }

  /** The random ids are distinct and new to the table. */
  ghost predicate NeverDrawn(newIds: NewIds, tasks: Tasks) {
    (forall j, k | 0 <= j < k :: newIds(j) != newIds(k)) && forall k :: newIds(k) !in tasks
  }

  /** Distinct unused ids are never refused. */
  lemma DrawnFits(listIds: set<string>, tasks: Tasks, l: string, ts: seq<MainTask>, newIds: NewIds)
    requires l in listIds && exists drawn :: DrawnInOrder(AllParams(ts), l, newIds, drawn)
    requires NeverDrawn(newIds, tasks)
    ensures InsertTree(listIds, tasks, l, AllParams(ts)).Some?
  {
    InsertTreeIff(listIds, tasks, l, ts);
  }

  method StoreNew(db: D.Database, row: ListRow, params: seq<TaskParams>, ghost ts: seq<MainTask>, ghost trees: Trees)
    returns (ok: bool)
    requires Holds(db.lists, db.tasks, trees) && params == AllParams(ts)
    modifies db`lists, db`tasks
    ensures ok ==>
      row.id !in trees && Holds(db.lists, db.tasks, trees[row.id := ts]) && db.lists == old(db.lists)[row.id := row]
    ensures !ok ==> db.lists == old(db.lists) && db.tasks == old(db.tasks)
    ensures !db.faulty ==>
      (ok <==> row.id !in trees && InsertTree(old(db.lists).Keys + {row.id}, old(db.tasks), row.id, params).Some?)
  {
    var stored := db.CreateTaskList(row, params);
    ok := stored.Done?;
    if ok {
      assert db.lists.Keys == old(db.lists).Keys + {row.id};
      CreateHolds(old(db.lists), old(db.tasks), trees, row, ts, db.tasks);
    }
  }

  /** New tasks are as valid as the submitted ones. */
  lemma NewTasksValid(submitted: seq<MainTask>, ts: seq<MainTask>, validRule: ValidRule)
    requires ValidTasks(submitted, validRule) && AllIdsFilled(ClearAllIds(submitted), ts)
    ensures ValidTasks(ts, validRule) && AllShaped(ts)
  {
    ClearedValid(submitted, validRule);
    FilledValid(ClearAllIds(submitted), ts, validRule);
    ValidShaped(ts, validRule);
  }

  /** The requests that `CreateTaskList` finds valid. */
  predicate AcceptsCreate(parentDir: string, title: string, submitted: seq<MainTask>, validRule: ValidRule) {
    Accepted(parentDir) && ValidName(title) && ValidTasks(submitted, validRule)
  }

  /** `CreateTaskList`. */
  method CreateTaskList(disk: K.Disk, db: D.Database, parentDir: string, title: string, submitted: seq<MainTask>,
                        isAutoDelete: bool, now: int, id: string, newIds: NewIds, validRule: ValidRule,
                        ghost trees: Trees)
    returns (r: Reply<TaskList>)
    requires Holds(db.lists, db.tasks, trees)
    requires IsUuidV4(id) && forall k :: IsUuidV4(newIds(k))
    modifies db`lists, db`tasks
    ensures r.Ok? ==> Holds(db.lists, db.tasks, trees[id := r.value.tasks]) && id !in trees
    ensures r.Ok? ==>
      && db.lists == old(db.lists)[id := ListRow(id, title, parentDir, isAutoDelete, now, now)]
      && r.value == TaskList(id, parentDir, title, r.value.tasks, now, isAutoDelete)
    ensures r.Ok? ==> AllIdsFilled(ClearAllIds(submitted), r.value.tasks)
    ensures r.Ok? ==> ValidTasks(r.value.tasks, validRule) && AllShaped(r.value.tasks)
    ensures r.Ok? ==> AcceptsCreate(parentDir, title, submitted, validRule) && Components(parentDir) in disk.dirs
    ensures r.Invalid? <==> !AcceptsCreate(parentDir, title, submitted, validRule)
    ensures !disk.faulty && disk.Valid() ==>
      (r.NoSuchDir? <==>
        AcceptsCreate(parentDir, title, submitted, validRule) && Components(parentDir) !in disk.dirs)
    ensures !r.NoSuchList?
    ensures !r.Ok? ==> db.lists == old(db.lists) && db.tasks == old(db.tasks)
    ensures !disk.faulty && !db.faulty && disk.Valid() && NeverDrawn(newIds, old(db.tasks)) ==>
      (r.Ok? <==>
        AcceptsCreate(parentDir, title, submitted, validRule) && Components(parentDir) in disk.dirs && id !in trees)
  {
    if !Accepted(parentDir) || !ValidName(title) || !ValidTasks(submitted, validRule) { return Invalid; }
    var isDir := K.RequireDir(disk, Components(parentDir));
    if !isDir { return NoSuchDir; }
    var a := NewArray(submitted);
    var params := NewTasks(a, newIds, id);
    var ts := a[..];
    NewTasksValid(submitted, ts, validRule);
    if NeverDrawn(newIds, db.tasks) { DrawnFits(db.lists.Keys + {id}, db.tasks, id, ts, newIds); }
    var row := ListRow(id, title, parentDir, isAutoDelete, now, now);
    var stored := StoreNew(db, row, params, ts, trees);
    r := if stored then Ok(ViewOf(row, ts)) else Internal;
  }

  /** The rows the database read for a list, as tasks: the stored tree. */
  method StoredTasks(db: D.Database, id: string, rows: seq<TaskRow>, ghost trees: Trees) returns (ts: seq<MainTask>)
    requires Holds(db.lists, db.tasks, trees) && id in trees && QueryResult(rows, db.tasks, id)
    ensures ts == trees[id]
  {
    ts := TaskRowsToMainTasks(rows);
    ReadBack(rows, db.tasks, id, trees[id]);
  }

  /** The tasks as stored, read for comparison. */
  method ExistingTasks(db: D.Database, id: string, ghost trees: Trees) returns (r: Reply<seq<MainTask>>)
    requires Holds(db.lists, db.tasks, trees)
    ensures r.Ok? ==> id in trees && r.value == trees[id]
    ensures r.NoSuchList? ==> id !in trees
    ensures !r.Invalid? && !r.NoSuchDir? && (!db.faulty ==> !r.Internal?)
  {
    var found := db.GetTaskList(id);
    match found {
      case Failed => return Internal;
      case NotFound => return NoSuchList;
      case Done(_) =>
    }
    var ts := StoredTasks(db, id, found.value.1, trees);
    r := Ok(ts);
  }

  /** Advance in place, then filter. */
  method PrepareTasks(a: array<MainTask>, existing: seq<MainTask>, isAutoDelete: bool, next: NextOccurrence)
    returns (r: Option<seq<MainTask>>)
    modifies a
    ensures r == Pipeline(old(a[..]), existing, isAutoDelete, next)
  {
    ghost var before := a[..];
    AdvanceAllAt(before, existing, next);
    var ok := AdvanceRecurringTasks(a, existing, next);
    if !ok {
      assert exists i :: 0 <= i < |before| && Advance(before[i], existing, next).None?;
      return None;
    }
    var domainTasks := a[..];
    assert AdvanceAll(before, existing, next).value == domainTasks;
    if isAutoDelete { domainTasks := FilterAutoDeleted(domainTasks); }
    r := Some(domainTasks);
  }

  /** What the pipeline does to the shape of valid tasks' dates. */
  lemma PreparedDates(filled: seq<MainTask>, existing: seq<MainTask>, autoDelete: bool, next: NextOccurrence,
                      validRule: ValidRule)
    requires ValidTasks(filled, validRule) && Pipeline(filled, existing, autoDelete, next).Some?
    ensures var out := Pipeline(filled, existing, autoDelete, next).value;
      && (AllShaped(out) <==> forall t | t in filled :: StaysBelow(t, existing, next))
      && (StrictlyLater(next) ==> AllDated(out))
  {
    ValidShaped(filled, validRule);
    PipelineShapedIff(filled, existing, autoDelete, next);
    if StrictlyLater(next) { PipelineDated(filled, existing, autoDelete, next); }
  }

  /** The prepared tasks exist, and the database takes them for list `l`. */
  ghost predicate Fits(listIds: set<string>, tasks: Tasks, l: string, prepared: Option<seq<MainTask>>) {
    prepared.Some? && ReplaceTree(listIds, tasks, l, AllParams(prepared.value)).Some?
  }

  lemma StoredIdsDiffer(lists: map<string, ListRow>, tasks: Tasks, trees: Trees, l: string)
    requires Holds(lists, tasks, trees) && l in trees
    ensures IdsDiffer(trees[l])
  {
    var ts := trees[l];
    assert Stored(tasks, l, ts);
    forall j, k | 0 <= j < k < |ts| ensures ts[j].id != ts[k].id {
      if ts[j].id == ts[k].id { MainIdsDistinct(l, ts, j, k); }
    }
  }

  /** The last step of `UpdateTaskList`. */
  method StoreUpdate(db: D.Database, id: string, title: string, isAutoDelete: bool, now: int,
                     domainTasks: seq<MainTask>, ghost trees: Trees)
    returns (r: Reply<TaskList>)
    requires Holds(db.lists, db.tasks, trees)
    modifies db`lists, db`tasks
    ensures r.Ok? ==>
      && id in trees
      && Holds(db.lists, db.tasks, trees[id := domainTasks])
    ensures r.Ok? ==>
      var row := old(db.lists)[id].(title := title, isAutoDelete := isAutoDelete, updatedAt := now);
      && db.lists == old(db.lists)[id := row]
      && r.value == TaskList(id, row.parentDir, title, domainTasks, now, isAutoDelete)
    ensures !r.Ok? ==> db.lists == old(db.lists) && db.tasks == old(db.tasks)
    ensures r.Ok? || r.Internal? || (r.NoSuchList? && id !in trees)
    ensures !db.faulty ==> (r.Ok? <==> id in trees && Fits(old(db.lists).Keys, old(db.tasks), id, Some(domainTasks)))
  {
    var stored := db.UpdateTaskList(id, title, isAutoDelete, now, AllParams(domainTasks));
    match stored {
      case Failed => return Internal;
      case NotFound => return NoSuchList;
      case Done(_) =>
    }
    ReplaceHolds(old(db.lists), old(db.tasks), trees, stored.value, domainTasks, db.tasks);
    r := Ok(ViewOf(stored.value, domainTasks));
  }

  /** The requests that `UpdateTaskList` finds valid. */
  ghost predicate AcceptsUpdate(id: string, title: string, submitted: seq<MainTask>, validRule: ValidRule) {
    && IsUuidV4(id) && ValidName(title) && ValidTasks(submitted, validRule)
    && forall t | t in submitted :: ValidIds(t)
  }

  /** The middle of `UpdateTaskList`: from the stored tasks to the ones to store. */
  method TasksToStore(db: D.Database, id: string, a: array<MainTask>, isAutoDelete: bool, next: NextOccurrence,
                      ghost trees: Trees)
    returns (r: Reply<seq<MainTask>>, ghost at: seq<nat>)
    requires Holds(db.lists, db.tasks, trees)
    modifies a
    ensures r.Ok? ==> id in trees && Pipeline(old(a[..]), trees[id], isAutoDelete, next) == Some(r.value)
    ensures r.Ok? ==> StoresExactly(old(a[..]), r.value, at, trees[id], isAutoDelete, next)
    ensures r.NoSuchList? ==> id !in trees
    ensures !db.faulty ==> (r.NoSuchList? <==> id !in trees)
    ensures !db.faulty ==>
      (r.Ok? <==> id in trees && Pipeline(old(a[..]), trees[id], isAutoDelete, next).Some?)
  {
    at := [];
    var existing := ExistingTasks(db, id, trees);
    if !existing.Ok? { return existing, at; }
    var domainTasks := PrepareTasks(a, existing.value, isAutoDelete, next);
    if domainTasks.None? { return Internal, at; }
    StoredIdsDiffer(db.lists, db.tasks, trees, id);
    at := PipelineExactly(old(a[..]), trees[id], isAutoDelete, next);
    r := Ok(domainTasks.value);
  }

  /** The checks of `UpdateTaskList`, up to the ids it fills in. */
  method AcceptTasks(id: string, title: string, submitted: seq<MainTask>, newIds: NewIds, validRule: ValidRule)
    returns (ok: bool, a: array<MainTask>)
    requires forall k :: IsUuidV4(newIds(k))
    ensures fresh(a) && (ok <==> AcceptsUpdate(id, title, submitted, validRule))
    ensures ok ==> AllIdsFilled(submitted, a[..]) && ValidTasks(a[..], validRule)
  {
    a := NewArray(submitted);
    if !IsUuidV4(id) || !ValidName(title) || !ValidTasks(submitted, validRule) { return false, a; }
    ok := AssignIds(a, newIds);
    if ok { FilledValid(submitted, a[..], validRule); }
  }

  /** `UpdateTaskList`: fill in ids, advance completed recurring tasks, drop what auto-delete drops,
      and replace the list's tree by the result. */
  method UpdateTaskList(db: D.Database, id: string, title: string, submitted: seq<MainTask>, isAutoDelete: bool,
                        now: int, newIds: NewIds, validRule: ValidRule, next: NextOccurrence, ghost trees: Trees)
    returns (r: Reply<TaskList>, ghost filled: seq<MainTask>, ghost at: seq<nat>)
    requires Holds(db.lists, db.tasks, trees)
    requires forall k :: IsUuidV4(newIds(k))
    modifies db`lists, db`tasks
    ensures r.Ok? ==> id in trees && Holds(db.lists, db.tasks, trees[id := r.value.tasks])
    ensures r.Ok? ==>
      var row := old(db.lists)[id].(title := title, isAutoDelete := isAutoDelete, updatedAt := now);
      && db.lists == old(db.lists)[id := row]
      && r.value == TaskList(id, row.parentDir, title, r.value.tasks, now, isAutoDelete)
    ensures r.Ok? ==> Pipeline(filled, trees[id], isAutoDelete, next) == Some(r.value.tasks)
    ensures r.Ok? ==> StoresExactly(filled, r.value.tasks, at, trees[id], isAutoDelete, next)
    ensures r.Ok? ==> (AllShaped(r.value.tasks) <==> forall t | t in filled :: StaysBelow(t, trees[id], next))
    ensures r.Ok? && StrictlyLater(next) ==> AllDated(r.value.tasks)
    ensures !r.Invalid? ==> AllIdsFilled(submitted, filled) && ValidTasks(filled, validRule)
    ensures r.Invalid? <==> !AcceptsUpdate(id, title, submitted, validRule)
    ensures !r.Ok? ==> db.lists == old(db.lists) && db.tasks == old(db.tasks)
    ensures r.NoSuchList? ==> id !in trees
    ensures !r.NoSuchDir?
    ensures !db.faulty ==> (r.NoSuchList? <==> AcceptsUpdate(id, title, submitted, validRule) && id !in trees)
    ensures !db.faulty ==> (r.Ok? <==>
      && AcceptsUpdate(id, title, submitted, validRule) && id in trees
      && Fits(old(db.lists).Keys, old(db.tasks), id, Pipeline(filled, trees[id], isAutoDelete, next)))
  {
    at := [];
    var ok, a := AcceptTasks(id, title, submitted, newIds, validRule);
    filled := a[..];
    if !ok { return Invalid, filled, at; }
    var prepared;
    prepared, at := TasksToStore(db, id, a, isAutoDelete, next, trees);
    if prepared.NoSuchList? { return NoSuchList, filled, at; }
    if !prepared.Ok? { return Internal, filled, at; }
    PreparedDates(filled, trees[id], isAutoDelete, next, validRule);
    r := StoreUpdate(db, id, title, isAutoDelete, now, prepared.value, trees);
  }

  /** `DeleteTaskList`. */
  method DeleteTaskList(db: D.Database, id: string, ghost trees: Trees) returns (r: Reply<()>)
    requires Holds(db.lists, db.tasks, trees)
    modifies db`lists, db`tasks
    ensures r.Ok? ==>
      IsUuidV4(id) && id in trees && Holds(db.lists, db.tasks, trees - {id}) && db.lists == old(db.lists) - {id}
    ensures !r.Ok? ==> db.lists == old(db.lists) && db.tasks == old(db.tasks)
    ensures !db.faulty && IsUuidV4(id) ==> (r.Ok? <==> id in trees)
    ensures (r.Invalid? <==> !IsUuidV4(id)) && !r.NoSuchDir? && (r.NoSuchList? ==> id !in trees)
    ensures !db.faulty ==> (r.NoSuchList? <==> IsUuidV4(id) && id !in trees) && !r.Internal?
  {
    if !IsUuidV4(id) { return Invalid; }
    var deleted := db.DeleteTaskList(id);
    if !deleted.Done? { return Internal; }
    if !deleted.value {
      assert db.lists == old(db.lists);
      return NoSuchList;
    }
    DeleteHolds(old(db.lists), old(db.tasks), trees, {id});
    r := Ok(());
  }

  /** `GetTaskList` shows the tree that was stored. */
  method GetTaskList(db: D.Database, id: string, ghost trees: Trees) returns (r: Reply<TaskList>)
    requires Holds(db.lists, db.tasks, trees)
    ensures r.Ok? ==> id in trees && var row := db.lists[id];
      r.value == TaskList(id, row.parentDir, row.title, trees[id], row.updatedAt, row.isAutoDelete)
    ensures r.NoSuchList? ==> id !in trees
    ensures !db.faulty && IsUuidV4(id) ==> (r.Ok? <==> id in trees)
    ensures (r.Invalid? <==> !IsUuidV4(id)) && !r.NoSuchDir?
    ensures !db.faulty ==> (r.NoSuchList? <==> IsUuidV4(id) && id !in trees) && !r.Internal?
  {
    if !IsUuidV4(id) { return Invalid; }
    var found := db.GetTaskList(id);
    match found {
      case Failed => return Internal;
      case NotFound => return NoSuchList;
      case Done(_) =>
    }
    var ts := StoredTasks(db, id, found.value.1, trees);
    r := Ok(ViewOf(found.value.0, ts));
  }

  lemma ListedRow(lists: map<string, ListRow>, dir: string, found: seq<ListRow>, row: ListRow)
    requires Lists(found, ListsIn(lists, dir)) && (forall l | l in lists :: lists[l].id == l) && row in found
    ensures row.id in lists && lists[row.id] == row && row.parentDir == dir
  {
    assert row in ListsIn(lists, dir);
  }

  /** `ListTaskLists` shows the tree of every list of the directory, each list once. */
  method ListTaskLists(disk: K.Disk, db: D.Database, parentDir: string, ghost trees: Trees)
    returns (r: Reply<seq<TaskList>>)
    requires disk.Valid() && Holds(db.lists, db.tasks, trees)
    ensures r.Ok? ==> Distinct(r.value)
    ensures r.Ok? ==> forall v :: v in r.value <==>
      v.id in db.lists && db.lists[v.id].parentDir == parentDir && var row := db.lists[v.id];
        v == TaskList(v.id, parentDir, row.title, trees[v.id], row.updatedAt, row.isAutoDelete)
    ensures !disk.faulty && !db.faulty ==> (r.Ok? <==> Accepted(parentDir) && Components(parentDir) in disk.dirs)
    ensures (r.Invalid? <==> !Accepted(parentDir)) && !r.NoSuchList?
    ensures !disk.faulty ==> (r.NoSuchDir? <==> Accepted(parentDir) && Components(parentDir) !in disk.dirs)
  {
    if !Accepted(parentDir) { return Invalid; }
    var isDir := K.RequireDir(disk, Components(parentDir));
    if !isDir { return NoSuchDir; }
    var stored := db.ListTaskLists(parentDir);
    if !stored.Done? { return Internal; }
    var found, tasksByList := stored.value.0, stored.value.1;
    var taskLists: seq<TaskList> := [];
    for i := 0 to |found|
      invariant |taskLists| == i
      invariant forall k | 0 <= k < i :: found[k].id in trees && taskLists[k] == ViewOf(found[k], trees[found[k].id])
    {
      ListedRow(db.lists, parentDir, found, found[i]);
      var ts := StoredTasks(db, found[i].id, tasksByList[found[i].id], trees);
      taskLists := taskLists + [ViewOf(found[i], ts)];
    }
    ListedViews(db.lists, trees, parentDir, found, taskLists);
    r := Ok(taskLists);
  }

  lemma ListedViews(lists: map<string, ListRow>, trees: Trees, dir: string, found: seq<ListRow>, views: seq<TaskList>)
    requires Lists(found, ListsIn(lists, dir)) && (forall l | l in lists :: lists[l].id == l && l in trees)
    requires |views| == |found|
    requires forall k | 0 <= k < |found| :: found[k].id in trees && views[k] == ViewOf(found[k], trees[found[k].id])
    ensures Distinct(views)
    ensures forall v :: v in views <==>
      v.id in lists && lists[v.id].parentDir == dir && var row := lists[v.id];
        v == TaskList(v.id, dir, row.title, trees[v.id], row.updatedAt, row.isAutoDelete)
  {
    forall k | 0 <= k < |found|
      ensures found[k].id in lists && lists[found[k].id] == found[k] && found[k].parentDir == dir
    {
      ListedRow(lists, dir, found, found[k]);
    }
    forall i, j | 0 <= i < j < |views| ensures views[i] != views[j] {
      assert lists[found[i].id] != lists[found[j].id];
    }
    forall v: TaskList | v.id in lists && lists[v.id].parentDir == dir && v == ViewOf(lists[v.id], trees[v.id])
      ensures v in views
    {
      assert lists[v.id] in ListsIn(lists, dir);
      var k :| 0 <= k < |found| && found[k] == lists[v.id];
      assert views[k] == v;
    }
  }

  /** `singleTaskRowToMainTask`. */
  method SingleTaskRowToMainTask(mainRow: TaskRow, subRows: seq<TaskRow>) returns (t: MainTask)
    ensures t == ToMainTask(mainRow, ToSubTasks(subRows))
  {
    t := ToMainTask(mainRow, []);
    for j := 0 to |subRows|
      invariant t == ToMainTask(mainRow, ToSubTasks(subRows[..j]))
    {
      assert ToSubTasks(subRows[..j + 1]) == ToSubTasks(subRows[..j]) + [ToSubTask(subRows[j])];
      t := t.(subTasks := t.subTasks + [ToSubTask(subRows[j])]);
    }
    assert subRows[..|subRows|] == subRows;
  }

  ghost predicate IsTaskOf(trees: Trees, l: string, i: nat, t: MainTask) {
    l in trees && i < |trees[l]| && trees[l][i] == t
  }

  /** `GetMainTask` reads along another path and shows the same: the element of the list's tree. */
  method GetMainTask(db: D.Database, id: string, ghost trees: Trees) returns (r: Reply<MainTask>)
    requires Holds(db.lists, db.tasks, trees)
    ensures r.Ok? ==> r.value.id == id && exists l, i: nat :: IsTaskOf(trees, l, i, r.value)
    ensures r.NoSuchList? ==> forall l, i: nat | l in trees && i < |trees[l]| :: trees[l][i].id != id
    ensures !db.faulty && IsUuidV4(id) ==>
      (r.Ok? <==> exists l, i: nat :: l in trees && i < |trees[l]| && trees[l][i].id == id)
    ensures (r.Invalid? <==> !IsUuidV4(id)) && !r.NoSuchDir? && (!db.faulty ==> !r.Internal?)
  {
    if !IsUuidV4(id) { return Invalid; }
    var found := db.GetMainTask(id);
    forall l, i: nat | l in trees && i < |trees[l]|
      ensures trees[l][i].id in db.tasks && db.tasks[trees[l][i].id].listId.Some?
    {
      TreeRowStored(db.tasks, l, trees[l], i);
    }
    match found {
      case Failed => return Internal;
      case NotFound => return NoSuchList;
      case Done(_) =>
    }
    var t := SingleTaskRowToMainTask(found.value.0, found.value.1);
    ghost var l, i := MainTaskAt(db.lists, db.tasks, trees, id, found.value.1);
    assert IsTaskOf(trees, l, i, t);
    r := Ok(t);
  }

  /** A main task's row is the row of an element of its list's tree. */
  lemma MainRowAt(lists: map<string, ListRow>, tasks: Tasks, trees: Trees, id: string) returns (l: string, i: nat)
    requires Holds(lists, tasks, trees) && id in tasks && tasks[id].listId.Some?
    ensures l in trees && i < |trees[l]| && tasks[id] == MainRow(l, trees[l][i], i) && trees[l][i].id == id
  {
    assert RowOk(lists.Keys, tasks, id);
    l := tasks[id].listId.value;
    var ts := trees[l];
    assert Stored(tasks, l, ts);
    assert tasks[id] in SelectedRows(tasks, l);
    TreeRowsIff(l, ts);
    i :| 0 <= i < |ts| && tasks[id] == MainRow(l, ts[i], 0 + i);
  }

  lemma SubRowListed(listIds: set<string>, tasks: Tasks, l: string, ts: seq<MainTask>, i: nat, r: TaskRow)
    requires Forest(listIds, tasks) && Stored(tasks, l, ts) && i < |ts|
    requires ts[i].id in tasks && tasks[ts[i].id].listId == Some(l) && r in SubsOf(tasks, ts[i].id)
    ensures r in SubRowsOf(ts[i])
  {
    assert r in SelectedRows(tasks, l);
    SubRowsOfIff(l, ts, i, r);
  }

  lemma TreeRowStored(tasks: Tasks, l: string, ts: seq<MainTask>, i: nat)
    requires Stored(tasks, l, ts) && i < |ts|
    ensures ts[i].id in tasks && tasks[ts[i].id] == MainRow(l, ts[i], i)
    ensures forall r | r in SubRowsOf(ts[i]) :: r in SubsOf(tasks, ts[i].id)
  {
    TreeRowsIff(l, ts);
    assert IsMainRow(MainRow(l, ts[i], 0 + i), l, ts, 0);
    forall r | r in SubRowsOf(ts[i]) ensures r in SubsOf(tasks, ts[i].id) {
      var j :| 0 <= j < |ts[i].subTasks| && SubRowsOf(ts[i])[j] == r;
      assert r == SubRow(ts[i].id, ts[i].subTasks[j], j);
      assert IsSubRow(r, ts);
      assert tasks[r.id] == r;
    }
  }

  /** What a stored tree is in the table, column by column: a main task's row names the list and its position, and
      empty strings are NULL; a subtask's row names its parent and its position below it, and has neither date nor
      rule. */
  lemma StoredRows(tasks: Tasks, l: string, ts: seq<MainTask>, i: nat)
    requires Stored(tasks, l, ts) && i < |ts|
    ensures var t := ts[i];
      && t.id in tasks
      && tasks[t.id] == TaskRow(t.id, Some(l), None, i, t.description, t.isDone,
                                if t.dueDate == "" then None else Some(t.dueDate),
                                if t.recurrence == "" then None else Some(t.recurrence))
      && forall j | 0 <= j < |t.subTasks| ::
        var st := t.subTasks[j];
        st.id in tasks && tasks[st.id] == TaskRow(st.id, None, Some(t.id), j, st.description, st.isDone, None, None)
  {
    TreeRowStored(tasks, l, ts, i);
    forall j | 0 <= j < |ts[i].subTasks|
      ensures var st := ts[i].subTasks[j];
        st.id in tasks && tasks[st.id] == TaskRow(st.id, None, Some(ts[i].id), j, st.description, st.isDone, None, None)
    {
      var r := SubRowsOf(ts[i])[j];
      assert r in SubsOf(tasks, ts[i].id);
      TreeRowsIff(l, ts);
      assert IsSubRow(r, ts);
    }
  }

  /** The rows below a main task are the rows of its subtasks. */
  lemma SubRowsAt(listIds: set<string>, tasks: Tasks, l: string, ts: seq<MainTask>, i: nat)
    requires Forest(listIds, tasks) && Stored(tasks, l, ts) && i < |ts|
    ensures forall r :: r in SubsOf(tasks, ts[i].id) <==> r in SubRowsOf(ts[i])
  {
    TreeRowStored(tasks, l, ts, i);
    forall r | r in SubsOf(tasks, ts[i].id) ensures r in SubRowsOf(ts[i]) { SubRowListed(listIds, tasks, l, ts, i, r); }
  }

  lemma MainTaskAt(lists: map<string, ListRow>, tasks: Tasks, trees: Trees, id: string, subs: seq<TaskRow>)
    returns (l: string, i: nat)
    requires Holds(lists, tasks, trees) && id in tasks && tasks[id].listId.Some?
    requires Lists(subs, SubsOf(tasks, id)) && Sorted(subs, PositionLe)
    ensures IsTaskOf(trees, l, i, ToMainTask(tasks[id], ToSubTasks(subs)))
  {
    l, i := MainRowAt(lists, tasks, trees, id);
    var t := trees[l][i];
    SubRowsAt(lists.Keys, tasks, l, trees[l], i);
    PositionOrderUnique(subs, SubRowsOf(t), 0);
    assert ToSubTasks(SubRowsOf(t)) == t.subTasks;
  }

  // ---- Aggregate counts ----

  function DoneRow(): TaskRow -> bool { (r: TaskRow) => r.isDone }

  function DoneTask(): MainTask -> bool { (t: MainTask) => t.isDone }

  lemma MainsAreRows(lists: map<string, ListRow>, tasks: Tasks, trees: Trees, l: string)
    requires Holds(lists, tasks, trees) && l in lists
    ensures MainsOf(tasks, l) == Elements(MainRowsOf(l, trees[l]))
  {
    assert Stored(tasks, l, trees[l]);
    forall r ensures r in MainsOf(tasks, l) <==> r in MainRowsOf(l, trees[l]) { MainRowListed(tasks, l, trees[l], r); }
  }

  lemma MainRowListed(tasks: Tasks, l: string, ts: seq<MainTask>, r: TaskRow)
    requires Stored(tasks, l, ts)
    ensures r in MainsOf(tasks, l) <==> r in MainRowsOf(l, ts)
  {
    TreeRowsIff(l, ts);
    if r in MainsOf(tasks, l) {
      assert r in SelectedRows(tasks, l);
      var i :| 0 <= i < |ts| && r == MainRow(l, ts[i], 0 + i);
      assert MainRowsOf(l, ts)[i] == r;
    }
    if r in MainRowsOf(l, ts) {
      var i :| 0 <= i < |ts| && MainRowsOf(l, ts)[i] == r;
      assert r == MainRow(l, ts[i], 0 + i);
      assert IsMainRow(r, l, ts, 0);
      assert tasks[r.id] == r;
    }
  }

  lemma DoneCount(rows: seq<TaskRow>)
    requires Distinct(rows)
    ensures |set r | r in Elements(rows) && r.isDone| == |Filter(rows, DoneRow())|
  {
    var done := Filter(rows, DoneRow());
    FilterOrdered(rows, DoneRow(), (x: TaskRow, y: TaskRow) => true);
    FilterIn(rows, DoneRow());
    DistinctCount(done);
    assert (set r | r in Elements(rows) && r.isDone) == Elements(done);
  }

  /** The counts of the aggregate query are the counts of the nested view: all main tasks, and the
      done ones; zero for an empty list. */
  lemma CountsAgree(lists: map<string, ListRow>, tasks: Tasks, trees: Trees, l: string)
    requires Holds(lists, tasks, trees) && l in lists
    ensures Counted(tasks, lists[l]) == CountedList(lists[l], |trees[l]|, |Filter(trees[l], DoneTask())|)
  {
    var rows := MainRowsOf(l, trees[l]);
    MainsAreRows(lists, tasks, trees, l);
    assert forall i | 0 <= i < |rows| :: rows[i].position == i;
    DistinctCount(rows);
    DoneCount(rows);
    FilterSameLength(rows, trees[l], DoneRow(), DoneTask());
  }

  /** Validation accepts what an update answered if and only if no task moved on past the year 9999. */
  lemma ResubmitValidIff(filled: seq<MainTask>, existing: seq<MainTask>, autoDelete: bool, next: NextOccurrence,
                         validRule: ValidRule)
    requires ValidTasks(filled, validRule) && Pipeline(filled, existing, autoDelete, next).Some?
    ensures ValidTasks(Pipeline(filled, existing, autoDelete, next).value, validRule)
       <==> forall t | t in filled :: StaysBelow(t, existing, next)
  {
    var out := Pipeline(filled, existing, autoDelete, next).value;
    PreparedDates(filled, existing, autoDelete, next, validRule);
    PipelineDerived(filled, existing, autoDelete, next);
    if AllShaped(out) {
      forall u | u in out
        ensures ByteLen(u.description) <= MAX_TASK_DESCRIPTION_BYTES && |u.subTasks| <= MAX_SUBTASKS_PER_TASK
        ensures forall st | st in u.subTasks :: ByteLen(st.description) <= MAX_SUBTASK_DESCRIPTION_BYTES
        ensures u.recurrence != "" ==> u.dueDate != "" && validRule(u.recurrence)
      {
        var t :| t in filled && Derived(t, u);
      }
    }
  }

  /** Resubmitting what an update answered, with the same flag, stores it again unchanged. */
  lemma ResubmitStoresSame(lists: map<string, ListRow>, tasks: Tasks, trees: Trees, l: string, filled: seq<MainTask>,
                           existing: seq<MainTask>, autoDelete: bool, next: NextOccurrence)
    requires Holds(lists, tasks, trees) && l in trees
    requires Pipeline(filled, existing, autoDelete, next) == Some(trees[l])
    ensures Pipeline(trees[l], trees[l], autoDelete, next) == Some(trees[l])
    ensures ReplaceTree(lists.Keys, tasks, l, AllParams(trees[l])).Some?
  {
    var ts := trees[l];
    StoredIdsDiffer(lists, tasks, trees, l);
    ResubmitIsFixpoint(filled, existing, autoDelete, next);
    ReplaceTreeIff(lists.Keys, tasks, l, ts);
    forall r | r in TreeRows(l, ts) ensures Selected(tasks, l, tasks[r.id]) {
      assert r in SelectedRows(tasks, l);
    }
  }
}
