/** The `tasks` table under inserts, deletes and cascades: primary keys, foreign keys, and the
    two-level forest that every reachable state is. */
module TaskStore {
  import opened Strings
  import opened Rows
  import opened OrderBy
  import opened TaskTree
  import opened TaskRoundTrip

  type Tasks = map<string, TaskRow>

  // ---- INSERT ----

  /** The primary key is new and both foreign keys exist. */
  predicate CanInsert(listIds: set<string>, tasks: Tasks, r: TaskRow) {
    && r.id !in tasks
    && (r.listId.Some? ==> r.listId.value in listIds)
    && (r.parentId.Some? ==> r.parentId.value in tasks)
  }

  /** Inserting the rows one by one; `None` when a row is refused. */
  function InsertAll(listIds: set<string>, tasks: Tasks, rows: seq<TaskRow>): Option<Tasks>
    decreases |rows|
  {
    if rows == [] then Some(tasks)
    else if CanInsert(listIds, tasks, rows[0]) then InsertAll(listIds, tasks[rows[0].id := rows[0]], rows[1..])
    else None
  }

  lemma {:induction false} InsertAllConcat(listIds: set<string>, tasks: Tasks, a: seq<TaskRow>, b: seq<TaskRow>)
    ensures InsertAll(listIds, tasks, a + b)
         == match InsertAll(listIds, tasks, a) case Some(m) => InsertAll(listIds, m, b) case None => None
    decreases |a|
  {
    if a == [] {
      assert a + b == b;
    } else {
      assert (a + b)[1..] == a[1..] + b && (a + b)[0] == a[0];
      if CanInsert(listIds, tasks, a[0]) { InsertAllConcat(listIds, tasks[a[0].id := a[0]], a[1..], b); }
    }
  }

  /** Each row's list exists, and its parent exists already or comes earlier. */
  ghost predicate ReferencesFirst(listIds: set<string>, known: set<string>, rows: seq<TaskRow>) {
    forall k | 0 <= k < |rows| ::
      && (rows[k].listId.Some? ==> rows[k].listId.value in listIds)
      && (rows[k].parentId.Some? ==>
            rows[k].parentId.value in known || exists j :: 0 <= j < k && rows[j].id == rows[k].parentId.value)
  }

  /** Rows are refused exactly if one of them refers to a missing list, or to a parent that is neither there nor
      inserted before it. */
  lemma {:induction false} ReferencesIff(listIds: set<string>, tasks: Tasks, rows: seq<TaskRow>)
    requires DistinctIds(rows) && forall r | r in rows :: r.id !in tasks
    ensures InsertAll(listIds, tasks, rows).Some? <==> ReferencesFirst(listIds, tasks.Keys, rows)
    decreases |rows|
  {
    if ReferencesFirst(listIds, tasks.Keys, rows) {
      InsertAllIff(listIds, tasks, rows);
    } else if rows != [] && CanInsert(listIds, tasks, rows[0]) {
      var r, rest := rows[0], rows[1..];
      HeadFresh(rows, tasks);
      ReferencesIff(listIds, tasks[r.id := r], rest);
      if ReferencesFirst(listIds, tasks[r.id := r].Keys, rest) { ReferencesHead(listIds, tasks, rows); }
    }
  }

  lemma ReferencesHead(listIds: set<string>, tasks: Tasks, rows: seq<TaskRow>)
    requires rows != [] && CanInsert(listIds, tasks, rows[0])
    requires ReferencesFirst(listIds, tasks[rows[0].id := rows[0]].Keys, rows[1..])
    ensures ReferencesFirst(listIds, tasks.Keys, rows)
  {
    forall k | 0 < k < |rows|
      ensures rows[k].listId.Some? ==> rows[k].listId.value in listIds
      ensures rows[k].parentId.Some? ==>
        rows[k].parentId.value in tasks || exists j :: 0 <= j < k && rows[j].id == rows[k].parentId.value
    {
      assert rows[k] == rows[1..][k - 1];
      if rows[k].parentId.Some? && rows[k].parentId.value !in tasks && rows[k].parentId.value != rows[0].id {
        var j :| 0 <= j < k - 1 && rows[1..][j].id == rows[1..][k - 1].parentId.value;
        assert rows[j + 1] == rows[1..][j];
      }
    }
  }

  /** The only reason left for refusing rows whose references are there is an id that is already taken. */
  lemma {:induction false} InsertAllIff(listIds: set<string>, tasks: Tasks, rows: seq<TaskRow>)
    requires ReferencesFirst(listIds, tasks.Keys, rows)
    ensures InsertAll(listIds, tasks, rows).Some? <==> DistinctIds(rows) && forall r | r in rows :: r.id !in tasks
    ensures InsertAll(listIds, tasks, rows).Some? ==>
      var m := InsertAll(listIds, tasks, rows).value;
      && (forall r | r in rows :: r.id in m && m[r.id] == r)
      && (forall id | id in tasks :: id in m && m[id] == tasks[id])
      && (forall id | id in m :: id in tasks || (m[id] in rows && m[id].id == id))
    decreases |rows|
  {
    if rows == [] {
    } else {
      var r := rows[0];
      assert r in rows;
      if CanInsert(listIds, tasks, r) {
        var tasks' := tasks[r.id := r];
        forall k | 0 <= k < |rows[1..]| && rows[1..][k].parentId.Some?
          ensures rows[1..][k].parentId.value in tasks'.Keys
               || exists j :: 0 <= j < k && rows[1..][j].id == rows[1..][k].parentId.value
        {
          var p := rows[1..][k].parentId.value;
          assert rows[k + 1] == rows[1..][k];
          if p !in tasks' {
            var j :| 0 <= j < k + 1 && rows[j].id == p;
            assert rows[1..][j - 1] == rows[j];
          }
        }
        InsertAllIff(listIds, tasks', rows[1..]);
        HeadFresh(rows, tasks);
      }
    }
  }

  lemma HeadFresh(rows: seq<TaskRow>, tasks: Tasks)
    requires rows != [] && rows[0].id !in tasks
    ensures (DistinctIds(rows) && forall r | r in rows :: r.id !in tasks)
       <==> (DistinctIds(rows[1..]) && forall r | r in rows[1..] :: r.id !in tasks[rows[0].id := rows[0]])
  {
    var rest := rows[1..];
    assert rows == [rows[0]] + rest;
    if DistinctIds(rows) && forall r | r in rows :: r.id !in tasks {
      forall r | r in rest
        ensures r.id != rows[0].id
      {
        var k :| 0 <= k < |rest| && rest[k] == r;
        assert rows[k + 1] == r;
      }
    }
    if DistinctIds(rest) && forall r | r in rest :: r.id !in tasks[rows[0].id := rows[0]] {
      forall i, j | 0 <= i < j < |rows| ensures rows[i].id != rows[j].id {
        assert rows[j] == rest[j - 1] && rest[j - 1] in rest;
        if i > 0 { assert rows[i] == rest[i - 1]; }
      }
    }
  }

  /** `insertTask` inserts a parent before its subtasks, at any depth. */
  lemma {:induction false} FlattenReferences(listIds: set<string>, known: set<string>, t: TaskParams,
                                             listId: Option<string>, parentId: Option<string>, position: nat)
    requires (listId.Some? ==> listId.value in listIds) && (parentId.Some? ==> parentId.value in known)
    ensures ReferencesFirst(listIds, known, Flatten(t, listId, parentId, position))
    decreases t, 1
  {
    FlattenAllReferences(listIds, known + {t.id}, t.subTasks, None, Some(t.id), 0);
    var rest := FlattenAll(t.subTasks, None, Some(t.id), 0);
    var rows := Flatten(t, listId, parentId, position);
    forall k | 1 <= k < |rows| && rows[k].parentId.Some?
      ensures rows[k].parentId.value in known || exists j :: 0 <= j < k && rows[j].id == rows[k].parentId.value
    {
      assert rows[k] == rest[k - 1] && rows[0].id == t.id;
      if rows[k].parentId.value !in known + {t.id} {
        var j :| 0 <= j < k - 1 && rest[j].id == rows[k].parentId.value;
        assert rows[j + 1] == rest[j];
      }
    }
    forall k | 1 <= k < |rows| && rows[k].listId.Some?
      ensures rows[k].listId.value in listIds
    {
      assert rows[k] == rest[k - 1];
    }
  }

  lemma {:induction false} FlattenAllReferences(listIds: set<string>, known: set<string>, ts: seq<TaskParams>,
                                                listId: Option<string>, parentId: Option<string>, from: nat)
    requires (listId.Some? ==> listId.value in listIds) && (parentId.Some? ==> parentId.value in known)
    ensures ReferencesFirst(listIds, known, FlattenAll(ts, listId, parentId, from))
    decreases ts, 0
  {
    if ts == [] {
    } else {
      FlattenReferences(listIds, known, ts[0], listId, parentId, from);
      FlattenAllReferences(listIds, known, ts[1..], listId, parentId, from + 1);
      ReferencesConcat(listIds, known, Flatten(ts[0], listId, parentId, from),
          FlattenAll(ts[1..], listId, parentId, from + 1));
    }
  }

  lemma ReferencesConcat(listIds: set<string>, known: set<string>, a: seq<TaskRow>, b: seq<TaskRow>)
    requires ReferencesFirst(listIds, known, a) && ReferencesFirst(listIds, known, b)
    ensures ReferencesFirst(listIds, known, a + b)
  {
    var rows := a + b;
    forall k | 0 <= k < |rows| && rows[k].parentId.Some?
      ensures rows[k].parentId.value in known || exists j :: 0 <= j < k && rows[j].id == rows[k].parentId.value
    {
      var p := rows[k].parentId.value;
      if p !in known {
        if k < |a| {
          assert rows[k] == a[k];
          var j :| 0 <= j < k && a[j].id == p;
          assert rows[j] == a[j];
        } else {
          assert rows[k] == b[k - |a|];
          var j :| 0 <= j < k - |a| && b[j].id == p;
          assert rows[j + |a|] == b[j];
        }
      }
    }
  }

  // ---- DELETE and its cascades ----

  predicate ReferencesExist(listIds: set<string>, tasks: Tasks, r: TaskRow) {
    && (r.listId.Some? ==> r.listId.value in listIds)
    && (r.parentId.Some? ==> r.parentId.value in tasks)
  }

  /** ON DELETE CASCADE: rows whose list or parent is gone go too, until none is left. */
  function Cascade(listIds: set<string>, tasks: Tasks): Tasks
    decreases |tasks|
  {
    var kept := map id | id in tasks && ReferencesExist(listIds, tasks, tasks[id]) :: tasks[id];
    if kept == tasks then tasks
    else
      assert |kept| < |tasks| by {
        assert kept.Keys <= tasks.Keys;
        assert kept.Keys != tasks.Keys;
        SubsetSmaller(kept.Keys, tasks.Keys);
        assert |kept| == |kept.Keys| && |tasks| == |tasks.Keys|;
      }
      Cascade(listIds, kept)
  }

  /** Every reference of these rows exists among the lists and these rows. */
  ghost predicate Closed(listIds: set<string>, tasks: Tasks) {
    forall id | id in tasks :: ReferencesExist(listIds, tasks, tasks[id])
  }

  /** The cascade keeps the largest part of the table in which every reference exists. */
  lemma {:induction false} CascadeKeepsMost(listIds: set<string>, tasks: Tasks, part: Tasks)
    requires Closed(listIds, part) && forall id | id in part :: id in tasks && part[id] == tasks[id]
    ensures var m := Cascade(listIds, tasks);
      && Closed(listIds, m)
      && (forall id | id in m :: id in tasks && m[id] == tasks[id])
      && (forall id | id in part :: id in m)
    decreases |tasks|
  {
    var kept := map id | id in tasks && ReferencesExist(listIds, tasks, tasks[id]) :: tasks[id];
    if kept == tasks {
      forall id | id in tasks ensures ReferencesExist(listIds, tasks, tasks[id]) { assert id in kept; }
    } else {
      assert kept.Keys <= tasks.Keys && kept.Keys != tasks.Keys;
      SubsetSmaller(kept.Keys, tasks.Keys);
      assert |kept| == |kept.Keys| && |tasks| == |tasks.Keys|;
      forall id | id in part ensures id in kept && part[id] == kept[id] {
        assert ReferencesExist(listIds, part, part[id]);
      }
      CascadeKeepsMost(listIds, kept, part);
    }
  }

  lemma SubsetSmaller(a: set<string>, b: set<string>)
    requires a <= b && a != b
    ensures |a| < |b|
  {
    var x :| x in b && x !in a;
    assert |b| == |b - {x}| + 1;
    SubsetNotLarger(a, b - {x});
  }

  lemma {:induction false} SubsetNotLarger(a: set<string>, b: set<string>)
    requires a <= b
    ensures |a| <= |b|
    decreases a
  {
    if a == {} {
    } else {
      var x :| x in a;
      SubsetNotLarger(a - {x}, b - {x});
    }
  }

  /** The row belongs to one of the lists: a main task of it, or a subtask of such a main task. */
  predicate OwnedBy(tasks: Tasks, ls: set<string>, r: TaskRow) {
    || (r.listId.Some? && r.listId.value in ls)
    || (r.parentId.Some? && r.parentId.value in tasks
        && tasks[r.parentId.value].listId.Some? && tasks[r.parentId.value].listId.value in ls)
  }

  /** `DELETE FROM tasks WHERE task_list_id = l OR parent_task_id IN (...)`, for a set of lists. */
  function Without(tasks: Tasks, ls: set<string>): Tasks {
    map id | id in tasks && !OwnedBy(tasks, ls, tasks[id]) :: tasks[id]
  }

  // ---- The forest ----

  predicate SameGroup(a: TaskRow, b: TaskRow) { a.listId == b.listId && a.parentId == b.parentId }

  ghost predicate RowOk(listIds: set<string>, tasks: Tasks, id: string)
    requires id in tasks
  {
    var r := tasks[id];
    && r.id == id
    && (r.listId.Some? <==> r.parentId.None?)
    && ReferencesExist(listIds, tasks, r)
    && (r.parentId.Some? ==> tasks[r.parentId.value].listId.Some?)
  }

  ghost predicate PositionTaken(tasks: Tasks, r: TaskRow, k: nat) {
    exists id :: id in tasks && SameGroup(tasks[id], r) && tasks[id].position == k
  }

  /** Every task is a main task of an existing list or a subtask of an existing main task, and the
      positions within a group are 0, 1, ..., without gaps or repetitions. */
  ghost predicate Forest(listIds: set<string>, tasks: Tasks) {
    && (forall id | id in tasks :: RowOk(listIds, tasks, id))
    && (forall a, b | a in tasks && b in tasks && SameGroup(tasks[a], tasks[b])
      && tasks[a].position == tasks[b].position :: a == b)
    && (forall id, k: nat | id in tasks && k < tasks[id].position :: PositionTaken(tasks, tasks[id], k))
  }

  /** Deleting lists with all they own keeps the forest. */
  lemma WithoutKeepsForest(listIds: set<string>, tasks: Tasks, ls: set<string>)
    requires Forest(listIds, tasks)
    ensures Forest(listIds - ls, Without(tasks, ls))
    ensures Forest(listIds, Without(tasks, ls))
  {
    var m := Without(tasks, ls);
    forall id | id in m ensures RowOk(listIds - ls, m, id) && RowOk(listIds, m, id) {
      assert RowOk(listIds, tasks, id);
      if m[id].parentId.Some? {
        var p := m[id].parentId.value;
        assert RowOk(listIds, tasks, p);
        assert p in m;
      }
    }
    forall id, k: nat | id in m && k < m[id].position ensures PositionTaken(m, m[id], k) {
      assert PositionTaken(tasks, tasks[id], k);
      var other :| other in tasks && SameGroup(tasks[other], tasks[id]) && tasks[other].position == k;
      assert other in m;
    }
  }

  /** Deleting lists, the cascade removes exactly what they own: their main tasks and those tasks' subtasks. */
  lemma CascadeDeletesOwned(listIds: set<string>, tasks: Tasks, ls: set<string>)
    requires Forest(listIds, tasks)
    ensures Cascade(listIds - ls, tasks) == Without(tasks, ls)
  {
    var rest := listIds - ls;
    var m := Without(tasks, ls);
    var kept := map id | id in tasks && ReferencesExist(rest, tasks, tasks[id]) :: tasks[id];
    var kept2 := map id | id in kept && ReferencesExist(rest, kept, kept[id]) :: kept[id];
    forall id | id in tasks
      ensures id in kept <==> tasks[id].listId.None? || tasks[id].listId.value !in ls
      ensures id in kept2 <==> id in m
    {
      assert RowOk(listIds, tasks, id);
      if tasks[id].parentId.Some? {
        assert RowOk(listIds, tasks, tasks[id].parentId.value);
      }
    }
    assert kept2 == m;
    WithoutKeepsForest(listIds, tasks, ls);
    CascadeStable(rest, m);
    if kept == tasks {
      assert kept2 == tasks by {
        forall id | id in tasks ensures id in kept2 { assert RowOk(listIds, tasks, id); }
        assert kept2.Keys == tasks.Keys;
      }
    } else {
      assert Cascade(rest, tasks) == Cascade(rest, kept);
      if kept2 != kept { assert Cascade(rest, kept) == Cascade(rest, kept2); }
    }
  }

  /** In a forest nothing is orphaned. */
  lemma CascadeStable(listIds: set<string>, tasks: Tasks)
    requires Forest(listIds, tasks)
    ensures Cascade(listIds, tasks) == tasks
  {
    var kept := map id | id in tasks && ReferencesExist(listIds, tasks, tasks[id]) :: tasks[id];
    forall id | id in tasks ensures id in kept { assert RowOk(listIds, tasks, id); }
    assert kept == tasks;
  }
}
