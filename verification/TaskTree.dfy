/** Nested tasks as rows: the flattening of `insertTask`, the order of the query that reads
    them back, and the regrouping of `taskRowsToMainTasks`. */
module TaskTree {
  import opened Strings
  import opened Rows
  import opened OrderBy

  // ---- Flatten (database/helpers.go) ----

  function RowOf(t: TaskParams, listId: Option<string>, parentId: Option<string>, position: nat): TaskRow {
    TaskRow(t.id, listId, parentId, position, t.description, t.isDone, t.dueDate, t.recurrence)
  }

  /** The rows `insertTask` inserts, in order: the task, then its subtasks at positions 0, 1, ... */
  function Flatten(t: TaskParams, listId: Option<string>, parentId: Option<string>, position: nat): seq<TaskRow>
    decreases t, 1
  {
    [RowOf(t, listId, parentId, position)] + FlattenAll(t.subTasks, None, Some(t.id), 0)
  }

  function FlattenAll(ts: seq<TaskParams>, listId: Option<string>, parentId: Option<string>, from: nat): seq<TaskRow>
    decreases ts, 0
  {
    if ts == [] then []
    else Flatten(ts[0], listId, parentId, from) + FlattenAll(ts[1..], listId, parentId, from + 1)
  }

  lemma {:induction false} FlattenSnoc(ts: seq<TaskParams>, t: TaskParams, listId: Option<string>,
                                       parentId: Option<string>, from: nat)
    ensures FlattenAll(ts + [t], listId, parentId, from)
        == FlattenAll(ts, listId, parentId, from) + Flatten(t, listId, parentId, from + |ts|)
    decreases |ts|
  {
    if ts == [] {
      assert ts + [t] == [t];
    } else {
      FlattenSnoc(ts[1..], t, listId, parentId, from + 1);
      assert (ts + [t])[1..] == ts[1..] + [t];
    }
  }

  // ---- The rows of a two-level tree ----

  function MainRow(l: string, t: MainTask, i: nat): TaskRow { RowOf(MainParams(t), Some(l), None, i) }

  function SubRow(parent: string, st: SubTask, j: nat): TaskRow { RowOf(SubParams(st), None, Some(parent), j) }

  /** The rows of list `l` when it holds the tree `ts`, in insertion order. */
  function TreeRows(l: string, ts: seq<MainTask>): seq<TaskRow> { FlattenAll(AllParams(ts), Some(l), None, 0) }

  ghost predicate IsMainRow(r: TaskRow, l: string, ts: seq<MainTask>, from: nat) {
    exists i :: 0 <= i < |ts| && r == MainRow(l, ts[i], from + i)
  }

  ghost predicate IsSubRow(r: TaskRow, ts: seq<MainTask>) {
    exists i, j :: 0 <= i < |ts| && 0 <= j < |ts[i].subTasks| && r == SubRow(ts[i].id, ts[i].subTasks[j], j)
  }

  lemma {:induction false} SubRows(ps: seq<TaskParams>, parent: string, from: nat)
    requires forall j | 0 <= j < |ps| :: ps[j].subTasks == []
    ensures FlattenAll(ps, None, Some(parent), from)
        == seq(|ps|, j requires 0 <= j < |ps| => RowOf(ps[j], None, Some(parent), from + j))
    decreases |ps|
  {
    if ps == [] {
    } else {
      SubRows(ps[1..], parent, from + 1);
      assert Flatten(ps[0], None, Some(parent), from) == [RowOf(ps[0], None, Some(parent), from)];
    }
  }

  /** One main task: its row, then its subtasks' rows. */
  lemma FlattenMain(l: string, t: MainTask, i: nat)
    ensures Flatten(MainParams(t), Some(l), None, i)
         == [MainRow(l, t, i)] + seq(|t.subTasks|, j requires 0 <= j < |t.subTasks| => SubRow(t.id, t.subTasks[j], j))
  {
    SubRows(MainParams(t).subTasks, t.id, 0);
  }

  lemma {:induction false} TreeRowsFrom(l: string, ts: seq<MainTask>, from: nat)
    ensures forall r ::
      r in FlattenAll(AllParams(ts), Some(l), None, from) <==> IsMainRow(r, l, ts, from) || IsSubRow(r, ts)
    decreases |ts|
  {
    if ts == [] {
    } else {
      TreeRowsFrom(l, ts[1..], from + 1);
      assert AllParams(ts)[1..] == AllParams(ts[1..]);
      FlattenMain(l, ts[0], from);
      forall r
        ensures r in FlattenAll(AllParams(ts), Some(l), None, from) <==> IsMainRow(r, l, ts, from) || IsSubRow(r, ts)
      {
        MainRowHead(r, l, ts, from);
        SubRowHead(r, ts);
      }
    }
  }

  lemma MainRowHead(r: TaskRow, l: string, ts: seq<MainTask>, from: nat)
    requires ts != []
    ensures IsMainRow(r, l, ts, from) <==> r == MainRow(l, ts[0], from) || IsMainRow(r, l, ts[1..], from + 1)
  {
    if IsMainRow(r, l, ts, from) {
      var i :| 0 <= i < |ts| && r == MainRow(l, ts[i], from + i);
      if i > 0 { assert ts[1..][i - 1] == ts[i]; }
    }
    if IsMainRow(r, l, ts[1..], from + 1) {
      var i :| 0 <= i < |ts[1..]| && r == MainRow(l, ts[1..][i], from + 1 + i);
      assert ts[i + 1] == ts[1..][i];
    }
  }

  lemma SubRowHead(r: TaskRow, ts: seq<MainTask>)
    requires ts != []
    ensures var subs := seq(|ts[0].subTasks|,
                            j requires 0 <= j < |ts[0].subTasks| => SubRow(ts[0].id, ts[0].subTasks[j], j));
      IsSubRow(r, ts) <==> r in subs || IsSubRow(r, ts[1..])
  {
    var subs := seq(|ts[0].subTasks|, j requires 0 <= j < |ts[0].subTasks| => SubRow(ts[0].id, ts[0].subTasks[j], j));
    if IsSubRow(r, ts) {
      var i, j :| 0 <= i < |ts| && 0 <= j < |ts[i].subTasks| && r == SubRow(ts[i].id, ts[i].subTasks[j], j);
      if i > 0 { assert ts[1..][i - 1] == ts[i]; } else { assert subs[j] == r; }
    }
    if IsSubRow(r, ts[1..]) {
      var i, j :| 0 <= i < |ts[1..]| && 0 <= j < |ts[1..][i].subTasks|
        && r == SubRow(ts[1..][i].id, ts[1..][i].subTasks[j], j);
      assert ts[i + 1] == ts[1..][i];
    }
  }

  /** The tree's rows are its main tasks' rows and its subtasks' rows. */
  lemma TreeRowsIff(l: string, ts: seq<MainTask>)
    ensures forall r :: r in TreeRows(l, ts) <==> IsMainRow(r, l, ts, 0) || IsSubRow(r, ts)
  {
    TreeRowsFrom(l, ts, 0);
  }

  ghost predicate DistinctIds(rows: seq<TaskRow>) {
    forall i, j | 0 <= i < j < |rows| :: rows[i].id != rows[j].id
  }

  // ---- Read back (database/helpers.go) ----

  /** The rows of one list: its main tasks, and the tasks whose parent is one of those. */
  predicate Selected(tasks: map<string, TaskRow>, l: string, r: TaskRow) {
    || r.listId == Some(l)
    || (r.parentId.Some? && r.parentId.value in tasks && tasks[r.parentId.value].listId == Some(l))
  }

  function Rank(r: TaskRow): int { if r.listId.Some? then 0 else 1 }

  /** `COALESCE(parent_task_id, task_list_id)`. */
  function Group(r: TaskRow): string {
    match r.parentId case Some(p) => p case None => FromNullable(r.listId)
  }

  /** ORDER BY main-before-sub, group, position. */
  predicate KeyLe(a: TaskRow, b: TaskRow) {
    Rank(a) < Rank(b)
      || (Rank(a) == Rank(b) && (Less(Group(a), Group(b)) || (Group(a) == Group(b) && a.position <= b.position)))
  }

  predicate PositionLe(a: TaskRow, b: TaskRow) { a.position <= b.position }

  function SelectedRows(tasks: map<string, TaskRow>, l: string): set<TaskRow> {
    set id | id in tasks && Selected(tasks, l, tasks[id]) :: tasks[id]
  }

  /** A result the query for list `l` may return. */
  ghost predicate QueryResult(rows: seq<TaskRow>, tasks: map<string, TaskRow>, l: string) {
    Lists(rows, SelectedRows(tasks, l)) && Sorted(rows, KeyLe)
  }

  lemma KeyLeTotalPreorder()
    ensures TotalPreorder(KeyLe)
  {
    forall x, y ensures KeyLe(x, y) || KeyLe(y, x) { LessTotal(Group(x), Group(y)); }
    forall x, y, z | KeyLe(x, y) && KeyLe(y, z) ensures KeyLe(x, z) {
      if Less(Group(x), Group(y)) && Less(Group(y), Group(z)) { LessTransitive(Group(x), Group(y), Group(z)); }
    }
  }

  /** The order of a result: main tasks first, by position, then the subtasks, by parent and then by position. */
  lemma QueryOrder(rows: seq<TaskRow>, tasks: map<string, TaskRow>, l: string)
    requires QueryResult(rows, tasks, l)
    requires forall id | id in tasks :: tasks[id].listId.Some? <==> tasks[id].parentId.None?
    ensures forall i, j | 0 <= i < j < |rows| ::
      var a, b := rows[i], rows[j];
      && (b.listId.Some? ==> a.listId.Some?)
      && (a.listId.Some? && b.listId.Some? ==> a.position <= b.position)
      && (a.listId.None? && b.listId.None? ==> a.parentId.Some? && b.parentId.Some?)
      && (a.listId.None? && b.listId.None? ==>
            var p, q := a.parentId.value, b.parentId.value; Less(p, q) || (p == q && a.position <= b.position))
  {
    forall i | 0 <= i < |rows|
      ensures (rows[i].listId.Some? <==> rows[i].parentId.None?) && (rows[i].listId.Some? ==> rows[i].listId == Some(l))
    {
      assert rows[i] in SelectedRows(tasks, l);
    }
    forall i, j | 0 <= i < j < |rows| && rows[i].listId.Some? && rows[j].listId.Some?
      ensures rows[i].position <= rows[j].position
    {
      LessIrreflexive(l);
      assert KeyLe(rows[i], rows[j]);
    }
  }

  // ---- Regroup (tasks/task_server.go) ----

  function IsMain(): TaskRow -> bool { (r: TaskRow) => r.listId.Some? }

  function IsSubOf(p: string): TaskRow -> bool { (r: TaskRow) => r.parentId == Some(p) }

  function ToSubTasks(rows: seq<TaskRow>): seq<SubTask> {
    seq(|rows|, j requires 0 <= j < |rows| => ToSubTask(rows[j]))
  }

  /** The map from id to index keeps the last main task with an id. */
  ghost predicate LastWithId(mains: seq<TaskRow>, i: nat)
    requires i < |mains|
  {
    forall k | i < k < |mains| :: mains[k].id != mains[i].id
  }

  /** The main tasks, each with those of `rows` that name it as their parent. */
  ghost function Attach(mains: seq<TaskRow>, rows: seq<TaskRow>): seq<MainTask> {
    seq(|mains|, i requires 0 <= i < |mains| =>
      ToMainTask(mains[i], if LastWithId(mains, i) then ToSubTasks(Filter(rows, IsSubOf(mains[i].id))) else []))
  }

  ghost function Regroup(rows: seq<TaskRow>): seq<MainTask> {
    Attach(Filter(rows, IsMain()), rows)
  }

  function Bare(mains: seq<TaskRow>): seq<MainTask> {
    seq(|mains|, i requires 0 <= i < |mains| => ToMainTask(mains[i], []))
  }

  lemma AttachNone(mains: seq<TaskRow>)
    ensures Attach(mains, []) == Bare(mains)
  {
    forall i | 0 <= i < |mains| ensures Attach(mains, [])[i] == Bare(mains)[i] {
      assert ToSubTasks(Filter([], IsSubOf(mains[i].id))) == [];
    }
  }

  lemma SubTasksSnoc(rows: seq<TaskRow>, r: TaskRow, p: string)
    ensures ToSubTasks(Filter(rows + [r], IsSubOf(p)))
         == ToSubTasks(Filter(rows, IsSubOf(p))) + if r.parentId == Some(p) then [ToSubTask(r)] else []
  {
    FilterSnoc(rows, r, IsSubOf(p));
  }

  /** A row whose parent is not among the main tasks is dropped. */
  lemma AttachOther(mains: seq<TaskRow>, rows: seq<TaskRow>, r: TaskRow)
    requires forall i | 0 <= i < |mains| :: r.parentId != Some(mains[i].id)
    ensures Attach(mains, rows + [r]) == Attach(mains, rows)
  {
    forall i | 0 <= i < |mains| ensures Attach(mains, rows + [r])[i] == Attach(mains, rows)[i] {
      SubTasksSnoc(rows, r, mains[i].id);
    }
  }

  /** A row with a parent goes to the end of the last main task with that id. */
  lemma AttachAt(mains: seq<TaskRow>, rows: seq<TaskRow>, r: TaskRow, at: nat)
    requires at < |mains| && r.parentId == Some(mains[at].id) && LastWithId(mains, at)
    ensures var was := Attach(mains, rows);
      Attach(mains, rows + [r]) == was[at := was[at].(subTasks := was[at].subTasks + [ToSubTask(r)])]
  {
    var was, now := Attach(mains, rows), Attach(mains, rows + [r]);
    forall i | 0 <= i < |mains|
      ensures now[i] == if i == at then was[at].(subTasks := was[at].subTasks + [ToSubTask(r)]) else was[i]
    {
      AttachOne(mains, rows, r, i);
      if i > at { assert mains[i].id != mains[at].id; }
      if i < at && mains[i].id == mains[at].id { assert !LastWithId(mains, i); }
    }
  }

  /** One more row, seen from one main task. */
  lemma AttachOne(mains: seq<TaskRow>, rows: seq<TaskRow>, r: TaskRow, i: nat)
    requires i < |mains|
    ensures var was, now := Attach(mains, rows)[i], Attach(mains, rows + [r])[i];
      now == if LastWithId(mains, i) && r.parentId == Some(mains[i].id)
        then was.(subTasks := was.subTasks + [ToSubTask(r)]) else was
  {
    SubTasksSnoc(rows, r, mains[i].id);
  }

  /** The row at `k`, attached through an index of the main tasks. */
  lemma AttachNext(mains: seq<TaskRow>, rows: seq<TaskRow>, k: nat, index: map<string, nat>)
    requires k < |rows| && Indexes(index, mains)
    ensures var was, now, r := Attach(mains, rows[..k]), Attach(mains, rows[..k + 1]), rows[k];
      if r.parentId.Some? && r.parentId.value in index then
        var at := index[r.parentId.value];
        at < |mains| && now == was[at := was[at].(subTasks := was[at].subTasks + [ToSubTask(r)])]
      else now == was
  {
    var r := rows[k];
    assert rows[..k + 1] == rows[..k] + [r];
    if r.parentId.Some? && r.parentId.value in index {
      AttachAt(mains, rows[..k], r, index[r.parentId.value]);
    } else {
      AttachOther(mains, rows[..k], r);
    }
  }

  /** Every id of a main task leads to the last main task with that id. */
  ghost predicate Indexes(index: map<string, nat>, mains: seq<TaskRow>) {
    && (forall id | id in index :: index[id] < |mains| && mains[index[id]].id == id && LastWithId(mains, index[id]))
    && (forall i | 0 <= i < |mains| :: mains[i].id in index)
  }

  /** The first pass: the main tasks in order, and their index. */
  method CollectMains(rows: seq<TaskRow>) returns (result: seq<MainTask>, index: map<string, nat>)
    ensures result == Bare(Filter(rows, IsMain())) && Indexes(index, Filter(rows, IsMain()))
  {
    index, result := map[], [];
    ghost var mains: seq<TaskRow> := [];
    for k := 0 to |rows|
      invariant mains == Filter(rows[..k], IsMain())
      invariant result == Bare(mains) && Indexes(index, mains)
    {
      assert rows[..k + 1] == rows[..k] + [rows[k]];
      FilterSnoc(rows[..k], rows[k], IsMain());
      if rows[k].listId.Some? {
        index := index[rows[k].id := |result|];
        result := result + [ToMainTask(rows[k], [])];
        mains := mains + [rows[k]];
      }
    }
    assert rows[..|rows|] == rows;
  }

  /** One step of the second pass. */
  method AttachRow(attached: seq<MainTask>, row: TaskRow, index: map<string, nat>, ghost mains: seq<TaskRow>,
                   ghost rows: seq<TaskRow>, ghost k: nat)
    returns (result: seq<MainTask>)
    requires k < |rows| && row == rows[k] && Indexes(index, mains) && attached == Attach(mains, rows[..k])
    ensures result == Attach(mains, rows[..k + 1])
  {
    result := attached;
    AttachNext(mains, rows, k, index);
    if row.parentId.Some? && row.parentId.value in index {
      var at := index[row.parentId.value];
      result := result[at := result[at].(subTasks := result[at].subTasks + [ToSubTask(row)])];
    }
  }

  /** `taskRowsToMainTasks`: the second pass attaches each subtask to its parent. */
  method TaskRowsToMainTasks(rows: seq<TaskRow>) returns (result: seq<MainTask>)
    ensures result == Regroup(rows)
  {
    ghost var mains := Filter(rows, IsMain());
    var index: map<string, nat>;
    result, index := CollectMains(rows);
    AttachNone(mains);
    for k := 0 to |rows|
      invariant result == Attach(mains, rows[..k])
    {
      result := AttachRow(result, rows[k], index, mains, rows, k);
    }
    assert rows[..|rows|] == rows;
  }
}
