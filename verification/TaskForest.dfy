/** Creating, replacing and deleting task lists: what each does to the forest of tasks, and the
    invariant over every run. */
module TaskForest {
  import opened Strings
  import opened Rows
  import opened OrderBy
  import opened TaskTree
  import opened TaskRoundTrip
  import opened TaskStore

  /** The tasks of list `l` after `INSERT`ing the tree `ts` for it. */
  function InsertTree(listIds: set<string>, tasks: Tasks, l: string, ts: seq<TaskParams>): Option<Tasks> {
    InsertAll(listIds, tasks, FlattenAll(ts, Some(l), None, 0))
  }

  /** `UpdateTaskList` on the table: delete what the list owns, with cascades, then insert the new tree. */
  function ReplaceTree(listIds: set<string>, tasks: Tasks, l: string, ts: seq<TaskParams>): Option<Tasks> {
    InsertTree(listIds, Cascade(listIds, Without(tasks, {l})), l, ts)
  }

  lemma SelectedIsOwned(tasks: Tasks, l: string, r: TaskRow)
    ensures Selected(tasks, l, r) <==> OwnedBy(tasks, {l}, r)
  {}

  ghost predicate FreshIds(tasks: Tasks, rows: seq<TaskRow>) {
    forall r | r in rows :: r.id !in tasks
  }

  /** Inserting a tree succeeds exactly when its ids are distinct and unused. */
  lemma InsertTreeIff(listIds: set<string>, tasks: Tasks, l: string, ts: seq<MainTask>)
    requires l in listIds
    ensures InsertTree(listIds, tasks, l, AllParams(ts)).Some?
       <==> DistinctIds(TreeRows(l, ts)) && FreshIds(tasks, TreeRows(l, ts))
  {
    FlattenAllReferences(listIds, tasks.Keys, AllParams(ts), Some(l), None, 0);
    InsertAllIff(listIds, tasks, TreeRows(l, ts));
  }

  /** The table after inserting the rows of a tree: the old rows and the new ones. */
  ghost predicate Extended(tasks: Tasks, rows: seq<TaskRow>, m: Tasks) {
    && (forall r | r in rows :: r.id in m && m[r.id] == r && r.id !in tasks)
    && (forall id | id in tasks :: id in m && m[id] == tasks[id])
    && (forall id | id in m :: id in tasks || (m[id] in rows && m[id].id == id))
  }

  /** Inserting a tree for a list without tasks stores exactly that tree, leaves the other lists'
      rows as they were, and keeps the forest. */
  lemma InsertTreeStores(listIds: set<string>, tasks: Tasks, l: string, ts: seq<MainTask>)
    requires Forest(listIds, tasks) && l in listIds && SelectedRows(tasks, l) == {}
    requires InsertTree(listIds, tasks, l, AllParams(ts)).Some?
    ensures var m := InsertTree(listIds, tasks, l, AllParams(ts)).value;
      && Stored(m, l, ts)
      && Forest(listIds, m)
      && forall l' | l' != l :: SelectedRows(m, l') == SelectedRows(tasks, l')
  {
    var rows := TreeRows(l, ts);
    var m := InsertTree(listIds, tasks, l, AllParams(ts)).value;
    FlattenAllReferences(listIds, tasks.Keys, AllParams(ts), Some(l), None, 0);
    InsertAllIff(listIds, tasks, rows);
    TreeRowsIff(l, ts);
    NoneSelected(tasks, l);
    ExtendedSelects(listIds, tasks, l, ts, m);
    ExtendedForest(listIds, tasks, l, ts, m);
  }

  lemma NoneSelected(tasks: Tasks, l: string)
    requires SelectedRows(tasks, l) == {}
    ensures forall id | id in tasks :: tasks[id].listId != Some(l)
  {
    var rows := SelectedRows(tasks, l);
    assert forall id | id in tasks && Selected(tasks, l, tasks[id]) :: tasks[id] in rows;
  }

  lemma NewRowShape(l: string, ts: seq<MainTask>, r: TaskRow)
    requires r in TreeRows(l, ts)
    ensures (r.listId == Some(l) && r.parentId == None)
         || (r.listId == None && r.parentId.Some? && exists p ::
           p in TreeRows(l, ts) && p.id == r.parentId.value && p.listId == Some(l))
  {
    TreeRowsIff(l, ts);
    if !IsMainRow(r, l, ts, 0) {
      var i, j :| 0 <= i < |ts| && 0 <= j < |ts[i].subTasks| && r == SubRow(ts[i].id, ts[i].subTasks[j], j);
      var p := MainRow(l, ts[i], 0 + i);
      assert IsMainRow(p, l, ts, 0);
      assert p in TreeRows(l, ts) && p.id == r.parentId.value;
    }
  }

  lemma ExtendedSelects(listIds: set<string>, tasks: Tasks, l: string, ts: seq<MainTask>, m: Tasks)
    requires Forest(listIds, tasks) && Extended(tasks, TreeRows(l, ts), m)
    requires forall id | id in tasks :: tasks[id].listId != Some(l)
    ensures forall r :: r in SelectedRows(m, l) <==> r in TreeRows(l, ts)
    ensures forall l' | l' != l :: SelectedRows(m, l') == SelectedRows(tasks, l')
  {
    var rows := TreeRows(l, ts);
    forall id | id in m
      ensures id in tasks ==> !Selected(m, l, m[id])
      ensures id in tasks ==> forall l' :: Selected(m, l', m[id]) <==> Selected(tasks, l', tasks[id])
      ensures id !in tasks ==>
        m[id] in rows && Selected(m, l, m[id]) && forall l' :: l' != l ==> !Selected(m, l', m[id])
    {
      if id in tasks {
        assert RowOk(listIds, tasks, id);
      } else {
        NewRowShape(l, ts, m[id]);
      }
    }
    forall r | r in rows ensures r in SelectedRows(m, l) { assert m[r.id] == r && r.id !in tasks; }
  }

  lemma ExtendedForest(listIds: set<string>, tasks: Tasks, l: string, ts: seq<MainTask>, m: Tasks)
    requires Forest(listIds, tasks) && l in listIds && Extended(tasks, TreeRows(l, ts), m)
    requires DistinctIds(TreeRows(l, ts))
    requires forall id | id in tasks :: tasks[id].listId != Some(l)
    ensures Forest(listIds, m)
  {
    var rows := TreeRows(l, ts);
    forall id | id in m ensures RowOk(listIds, m, id) {
      if id in tasks {
        assert RowOk(listIds, tasks, id);
      } else {
        NewRowShape(l, ts, m[id]);
      }
    }
    forall a, b | a in m && b in m && SameGroup(m[a], m[b]) && m[a].position == m[b].position ensures a == b {
      SameGroupSameAge(listIds, tasks, l, ts, m, a, b);
      if a !in tasks {
        NewPositions(l, ts, m[a], m[b]);
      }
    }
    forall id, k: nat | id in m && k < m[id].position ensures PositionTaken(m, m[id], k) {
      if id in tasks {
        assert PositionTaken(tasks, tasks[id], k);
        var other :| other in tasks && SameGroup(tasks[other], tasks[id]) && tasks[other].position == k;
        assert m[other] == tasks[other];
      } else {
        var other := NewPositionTaken(l, ts, m[id], k);
        assert other.id in m && m[other.id] == other;
      }
    }
  }

  /** An old row and a new one are never in the same group. */
  lemma SameGroupSameAge(listIds: set<string>, tasks: Tasks, l: string, ts: seq<MainTask>, m: Tasks, a: string,
                         b: string)
    requires Forest(listIds, tasks) && Extended(tasks, TreeRows(l, ts), m)
    requires forall id | id in tasks :: tasks[id].listId != Some(l)
    requires a in m && b in m && SameGroup(m[a], m[b])
    ensures a in tasks <==> b in tasks
  {
    if a in tasks { assert RowOk(listIds, tasks, a); } else { NewRowShape(l, ts, m[a]); }
    if b in tasks { assert RowOk(listIds, tasks, b); } else { NewRowShape(l, ts, m[b]); }
  }

  lemma NewPositions(l: string, ts: seq<MainTask>, r: TaskRow, s: TaskRow)
    requires DistinctIds(TreeRows(l, ts)) && r in TreeRows(l, ts) && s in TreeRows(l, ts)
    requires SameGroup(r, s) && r.position == s.position
    ensures r == s
  {
    TreeRowsIff(l, ts);
    if IsSubRow(r, ts) {
      assert IsSubRow(s, ts);
      var i, j :| 0 <= i < |ts| && 0 <= j < |ts[i].subTasks| && r == SubRow(ts[i].id, ts[i].subTasks[j], j);
      var i', j' :| 0 <= i' < |ts| && 0 <= j' < |ts[i'].subTasks| && s == SubRow(ts[i'].id, ts[i'].subTasks[j'], j');
      MainIdsDistinct(l, ts, i, i');
    }
  }

  lemma NewPositionTaken(l: string, ts: seq<MainTask>, r: TaskRow, k: nat) returns (other: TaskRow)
    requires r in TreeRows(l, ts) && k < r.position
    ensures other in TreeRows(l, ts) && SameGroup(other, r) && other.position == k
  {
    TreeRowsIff(l, ts);
    if IsSubRow(r, ts) {
      var i, j :| 0 <= i < |ts| && 0 <= j < |ts[i].subTasks| && r == SubRow(ts[i].id, ts[i].subTasks[j], j);
      other := SubRow(ts[i].id, ts[i].subTasks[k], k);
      assert IsSubRow(other, ts);
    } else {
      other := MainRow(l, ts[k], 0 + k);
      assert IsMainRow(other, l, ts, 0);
    }
  }

  // ---- Replace ----

  lemma WithoutSelects(listIds: set<string>, tasks: Tasks, ls: set<string>)
    requires Forest(listIds, tasks)
    ensures forall l :: SelectedRows(Without(tasks, ls), l) == if l in ls then {} else SelectedRows(tasks, l)
  {
    var m := Without(tasks, ls);
    forall id | id in tasks ensures id in m <==> forall l | l in ls :: !Selected(tasks, l, tasks[id]) {
      assert RowOk(listIds, tasks, id);
    }
    forall id, l | id in m ensures Selected(m, l, m[id]) <==> Selected(tasks, l, tasks[id]) {
      assert RowOk(listIds, tasks, id);
      if m[id].parentId.Some? { assert RowOk(listIds, tasks, m[id].parentId.value); }
    }
    forall l ensures SelectedRows(m, l) == if l in ls then {} else SelectedRows(tasks, l) {
      if l !in ls {
        forall r | r in SelectedRows(tasks, l) ensures r in SelectedRows(m, l) {
          var id :| id in tasks && Selected(tasks, l, tasks[id]) && tasks[id] == r;
          OneOwner(listIds, tasks, id, l);
          assert id in m && m[id] == r;
        }
      }
    }
  }

  /** No task is selected for two lists. */
  lemma OneOwner(listIds: set<string>, tasks: Tasks, id: string, l: string)
    requires Forest(listIds, tasks) && id in tasks && Selected(tasks, l, tasks[id])
    ensures forall l' :: Selected(tasks, l', tasks[id]) ==> l' == l
  {
    assert RowOk(listIds, tasks, id);
  }

  /** Replacing a list's tree succeeds exactly when the new ids are distinct and none of them is
      used by another list's task. */
  lemma ReplaceTreeIff(listIds: set<string>, tasks: Tasks, l: string, ts: seq<MainTask>)
    requires Forest(listIds, tasks) && l in listIds
    ensures ReplaceTree(listIds, tasks, l, AllParams(ts)).Some?
       <==> DistinctIds(TreeRows(l, ts))
            && forall r | r in TreeRows(l, ts) :: r.id in tasks ==> Selected(tasks, l, tasks[r.id])
  {
    WithoutKeepsForest(listIds, tasks, {l});
    CascadeStable(listIds, Without(tasks, {l}));
    InsertTreeIff(listIds, Without(tasks, {l}), l, ts);
    forall r | r in TreeRows(l, ts)
      ensures r.id !in Without(tasks, {l}) <==> (r.id in tasks ==> Selected(tasks, l, tasks[r.id]))
    {
      if r.id in tasks { SelectedIsOwned(tasks, l, tasks[r.id]); }
    }
  }

  /** A successful replacement stores exactly the new tree and changes no other list. */
  lemma ReplaceTreeStores(listIds: set<string>, tasks: Tasks, l: string, ts: seq<MainTask>)
    requires Forest(listIds, tasks) && l in listIds
    requires ReplaceTree(listIds, tasks, l, AllParams(ts)).Some?
    ensures var m := ReplaceTree(listIds, tasks, l, AllParams(ts)).value;
      && Stored(m, l, ts)
      && Forest(listIds, m)
      && forall l' | l' != l :: SelectedRows(m, l') == SelectedRows(tasks, l')
  {
    WithoutKeepsForest(listIds, tasks, {l});
    CascadeStable(listIds, Without(tasks, {l}));
    WithoutSelects(listIds, tasks, {l});
    InsertTreeStores(listIds, Without(tasks, {l}), l, ts);
  }

  // ---- Every run ----

  /** The two tables that make up the task lists. */
  datatype TaskDb = TaskDb(lists: map<string, ListRow>, tasks: Tasks) {
    ghost predicate Ok() { Forest(lists.Keys, tasks) }
  }

  /** What the service asks of the tables. `DeleteFolder` deletes a set of lists. */
  datatype Op =
    | Create(list: ListRow, tree: seq<MainTask>)
    | Replace(id: string, title: string, isAutoDelete: bool, updatedAt: int, tree: seq<MainTask>)
    | Delete(ids: set<string>)
    | MoveLists(lists: map<string, ListRow>)

  /** One committed operation, or the unchanged tables when it fails and rolls back. */
  function Apply(db: TaskDb, op: Op): TaskDb {
    match op
    case Create(list, tree) =>
      if list.id in db.lists then db
      else
        var lists' := db.lists[list.id := list];
        var m := InsertTree(lists'.Keys, db.tasks, list.id, AllParams(tree));
        if m.Some? then TaskDb(lists', m.value) else db
    case Replace(id, title, auto, at, tree) =>
      if id !in db.lists then db
      else
        var row := db.lists[id].(title := title, isAutoDelete := auto, updatedAt := at);
        var m := ReplaceTree(db.lists.Keys, db.tasks, id, AllParams(tree));
        if m.Some? then TaskDb(db.lists[id := row], m.value) else db
    case Delete(ids) =>
      var lists' := db.lists - ids;
      TaskDb(lists', Cascade(lists'.Keys, db.tasks))
    case MoveLists(lists') =>
      if lists'.Keys == db.lists.Keys then TaskDb(lists', db.tasks) else db
  }

  /** A list that does not exist owns nothing. */
  lemma NothingOwned(listIds: set<string>, tasks: Tasks, l: string)
    requires Forest(listIds, tasks) && l !in listIds
    ensures SelectedRows(tasks, l) == {}
    ensures Forest(listIds + {l}, tasks)
  {
    forall id | id in tasks ensures !Selected(tasks, l, tasks[id]) && RowOk(listIds + {l}, tasks, id) {
      assert RowOk(listIds, tasks, id);
      if tasks[id].parentId.Some? { assert RowOk(listIds, tasks, tasks[id].parentId.value); }
    }
  }

  lemma ApplyKeepsForest(db: TaskDb, op: Op)
    requires db.Ok()
    ensures Apply(db, op).Ok()
  {
    match op
    case Create(list, tree) =>
      if list.id !in db.lists {
        var lists' := db.lists[list.id := list];
        assert lists'.Keys == db.lists.Keys + {list.id};
        NothingOwned(db.lists.Keys, db.tasks, list.id);
        if InsertTree(lists'.Keys, db.tasks, list.id, AllParams(tree)).Some? {
          InsertTreeStores(lists'.Keys, db.tasks, list.id, tree);
        }
      }
    case Replace(id, title, auto, at, tree) =>
      if id in db.lists {
        var row := db.lists[id].(title := title, isAutoDelete := auto, updatedAt := at);
        assert db.lists[id := row].Keys == db.lists.Keys;
        if ReplaceTree(db.lists.Keys, db.tasks, id, AllParams(tree)).Some? {
          ReplaceTreeStores(db.lists.Keys, db.tasks, id, tree);
        }
      }
    case Delete(ids) =>
      assert (db.lists - ids).Keys == db.lists.Keys - ids;
      CascadeDeletesOwned(db.lists.Keys, db.tasks, ids);
      WithoutKeepsForest(db.lists.Keys, db.tasks, ids);
    case MoveLists(_) =>
  }

  function ApplyAll(db: TaskDb, ops: seq<Op>): TaskDb
    decreases |ops|
  {
    if ops == [] then db else ApplyAll(Apply(db, ops[0]), ops[1..])
  }

  /** In every state any run of operations reaches, failed ones included, the tasks form a two-level
      forest with positions 0..n-1 in every group. */
  lemma {:induction false} EveryRunForest(db: TaskDb, ops: seq<Op>)
    requires db.Ok()
    ensures ApplyAll(db, ops).Ok()
    decreases |ops|
  {
    if ops == [] {
    } else {
      ApplyKeepsForest(db, ops[0]);
      EveryRunForest(Apply(db, ops[0]), ops[1..]);
    }
  }

  lemma EmptyForest()
    ensures TaskDb(map[], map[]).Ok()
  {}
}
