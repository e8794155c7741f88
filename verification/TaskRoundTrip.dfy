/** What is stored is what is read: flattening a two-level tree into rows, querying the rows in
    any order the ORDER BY allows, and regrouping them gives the tree back. */
module TaskRoundTrip {
  import opened Strings
  import opened Rows
  import opened OrderBy
  import opened TaskTree

  /** The table holds exactly the tree `ts` for list `l`, with distinct ids. */
  ghost predicate Stored(tasks: map<string, TaskRow>, l: string, ts: seq<MainTask>) {
    && DistinctIds(TreeRows(l, ts))
    && (forall r | r in TreeRows(l, ts) :: r.id in tasks && tasks[r.id] == r)
    && (forall r :: r in SelectedRows(tasks, l) <==> r in TreeRows(l, ts))
  }

  lemma SameIdSameRow(rows: seq<TaskRow>, a: TaskRow, b: TaskRow)
    requires DistinctIds(rows) && a in rows && b in rows && a.id == b.id
    ensures a == b
  {}

  /** Main tasks of a tree with distinct ids have distinct ids. */
  lemma MainIdsDistinct(l: string, ts: seq<MainTask>, i: nat, k: nat)
    requires DistinctIds(TreeRows(l, ts)) && i < |ts| && k < |ts| && ts[i].id == ts[k].id
    ensures i == k
  {
    TreeRowsIff(l, ts);
    assert IsMainRow(MainRow(l, ts[i], i), l, ts, 0) && IsMainRow(MainRow(l, ts[k], k), l, ts, 0);
    SameIdSameRow(TreeRows(l, ts), MainRow(l, ts[i], i), MainRow(l, ts[k], k));
  }

  /** Rows at consecutive positions have one listing in position order. */
  lemma {:induction false} PositionOrderUnique(xs: seq<TaskRow>, ys: seq<TaskRow>, from: nat)
    requires forall i | 0 <= i < |ys| :: ys[i].position == from + i
    requires Distinct(xs) && Sorted(xs, PositionLe)
    requires forall r :: r in xs <==> r in ys
    ensures xs == ys
  {
    assert |xs| > 0 ==> xs[0] in xs;
    if ys == [] {
    } else {
      assert ys[0] in xs;
      var k :| 0 <= k < |xs| && xs[k] == ys[0];
      var j :| 0 <= j < |ys| && ys[j] == xs[0];
      assert PositionLe(xs[0], xs[k]);
      assert xs[0] == ys[0];
      forall r ensures r in xs[1..] <==> r in ys[1..] {
        assert r in xs <==> r == xs[0] || r in xs[1..];
        assert r in ys <==> r == ys[0] || r in ys[1..];
      }
      PositionOrderUnique(xs[1..], ys[1..], from + 1);
      assert xs == [xs[0]] + xs[1..] && ys == [ys[0]] + ys[1..];
    }
  }

  function MainRowsOf(l: string, ts: seq<MainTask>): seq<TaskRow> {
    seq(|ts|, i requires 0 <= i < |ts| => MainRow(l, ts[i], i))
  }

  function SubRowsOf(t: MainTask): seq<TaskRow> {
    seq(|t.subTasks|, j requires 0 <= j < |t.subTasks| => SubRow(t.id, t.subTasks[j], j))
  }

  /** Rows of one rank and group that are in query order are in position order. */
  lemma SameGroupByPosition(xs: seq<TaskRow>, rank: int, group: string)
    requires Sorted(xs, KeyLe)
    requires forall r | r in xs :: Rank(r) == rank && Group(r) == group
    ensures Sorted(xs, PositionLe)
  {
    LessIrreflexive(group);
    forall i, j | 0 <= i < j < |xs| ensures PositionLe(xs[i], xs[j]) {
      assert KeyLe(xs[i], xs[j]) && xs[i] in xs && xs[j] in xs;
    }
  }

  lemma QueriedMains(rows: seq<TaskRow>, tasks: map<string, TaskRow>, l: string, ts: seq<MainTask>)
    requires Stored(tasks, l, ts) && QueryResult(rows, tasks, l)
    ensures Filter(rows, IsMain()) == MainRowsOf(l, ts)
  {
    var mains := Filter(rows, IsMain());
    TreeRowsIff(l, ts);
    FilterIn(rows, IsMain());
    FilterOrdered(rows, IsMain(), KeyLe);
    forall r ensures r in mains <==> r in MainRowsOf(l, ts) {
      if r in mains {
        var i :| 0 <= i < |ts| && r == MainRow(l, ts[i], 0 + i);
        assert MainRowsOf(l, ts)[i] == r;
      }
      if r in MainRowsOf(l, ts) {
        var i :| 0 <= i < |ts| && MainRowsOf(l, ts)[i] == r;
        assert r == MainRow(l, ts[i], 0 + i);
        assert IsMainRow(r, l, ts, 0);
      }
    }
    SameGroupByPosition(mains, 0, l);
    PositionOrderUnique(mains, MainRowsOf(l, ts), 0);
  }

  /** The subtask rows of a main task are the rows of the tree that name it. */
  lemma SubRowsOfIff(l: string, ts: seq<MainTask>, i: nat, r: TaskRow)
    requires DistinctIds(TreeRows(l, ts)) && i < |ts|
    ensures r in SubRowsOf(ts[i]) <==> r in TreeRows(l, ts) && r.parentId == Some(ts[i].id)
  {
    TreeRowsIff(l, ts);
    if r in TreeRows(l, ts) && r.parentId == Some(ts[i].id) {
      assert IsSubRow(r, ts);
      var k, j :| 0 <= k < |ts| && 0 <= j < |ts[k].subTasks| && r == SubRow(ts[k].id, ts[k].subTasks[j], j);
      MainIdsDistinct(l, ts, i, k);
      assert SubRowsOf(ts[i])[j] == r;
    }
    if r in SubRowsOf(ts[i]) {
      var j :| 0 <= j < |ts[i].subTasks| && SubRowsOf(ts[i])[j] == r;
      assert r == SubRow(ts[i].id, ts[i].subTasks[j], j);
      assert IsSubRow(r, ts);
    }
  }

  lemma QueriedSubs(rows: seq<TaskRow>, tasks: map<string, TaskRow>, l: string, ts: seq<MainTask>, i: nat)
    requires Stored(tasks, l, ts) && QueryResult(rows, tasks, l) && i < |ts|
    ensures Filter(rows, IsSubOf(ts[i].id)) == SubRowsOf(ts[i])
  {
    var subs := Filter(rows, IsSubOf(ts[i].id));
    FilterIn(rows, IsSubOf(ts[i].id));
    FilterOrdered(rows, IsSubOf(ts[i].id), KeyLe);
    forall r ensures r in subs <==> r in SubRowsOf(ts[i]) { SubRowsOfIff(l, ts, i, r); }
    SameGroupByPosition(subs, 1, ts[i].id);
    PositionOrderUnique(subs, SubRowsOf(ts[i]), 0);
  }

  /** Reading back a stored tree gives that tree, with its order, its subtasks and its empty fields,
      for every result the query may return. */
  lemma ReadBack(rows: seq<TaskRow>, tasks: map<string, TaskRow>, l: string, ts: seq<MainTask>)
    requires Stored(tasks, l, ts) && QueryResult(rows, tasks, l)
    ensures Regroup(rows) == ts
  {
    QueriedMains(rows, tasks, l, ts);
    var mains := MainRowsOf(l, ts);
    forall i | 0 <= i < |ts| ensures Regroup(rows)[i] == ts[i] {
      forall k | i < k < |mains| ensures mains[k].id != mains[i].id {
        if ts[k].id == ts[i].id { MainIdsDistinct(l, ts, i, k); }
      }
      QueriedSubs(rows, tasks, l, ts, i);
      assert ToSubTasks(SubRowsOf(ts[i])) == ts[i].subTasks;
    }
  }

  /** A table holds at most one tree for a list. */
  lemma StoredUnique(rows: seq<TaskRow>, tasks: map<string, TaskRow>, l: string, ts: seq<MainTask>, us: seq<MainTask>)
    requires Stored(tasks, l, ts) && Stored(tasks, l, us) && QueryResult(rows, tasks, l)
    ensures ts == us
  {
    ReadBack(rows, tasks, l, ts);
    ReadBack(rows, tasks, l, us);
  }
}
