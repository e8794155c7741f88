/** The rows of the three tables (`database/types.go`, `database/schema.go`) and the task
    trees of the service (`tasks/types.go`). */
module Rows {
  import opened Strings

  datatype NoteRow = NoteRow(id: string, title: string, parentDir: string, preview: string, createdAt: int,
      updatedAt: int)

  datatype ListRow = ListRow(id: string, title: string, parentDir: string, isAutoDelete: bool, createdAt: int,
      updatedAt: int)

  /** A main task has `listId` set, a subtask has `parentId` set. */
  datatype TaskRow = TaskRow(id: string, listId: Option<string>, parentId: Option<string>, position: nat,
                             description: string, isDone: bool, dueDate: Option<string>, recurrence: Option<string>)

  /** `CreateTaskParams`. */
  datatype TaskParams = TaskParams(id: string, description: string, isDone: bool,
                                   dueDate: Option<string>, recurrence: Option<string>, subTasks: seq<TaskParams>)

  datatype SubTask = SubTask(id: string, description: string, isDone: bool)

  datatype MainTask = MainTask(id: string, description: string, isDone: bool,
                               dueDate: string, recurrence: string, subTasks: seq<SubTask>)

  // ---- Between the service and the database ----

  /** An empty string is stored as NULL. */
  function Nullable(s: string): Option<string> { if s == "" then None else Some(s) }

  /** NULL reads back as the empty string. */
  function FromNullable(o: Option<string>): string { match o case Some(s) => s case None => "" }

  function SubParams(st: SubTask): TaskParams { TaskParams(st.id, st.description, st.isDone, None, None, []) }

  /** The parameters the handlers build for one main task. */
  function MainParams(t: MainTask): TaskParams {
    TaskParams(t.id, t.description, t.isDone, Nullable(t.dueDate), Nullable(t.recurrence),
               seq(|t.subTasks|, j requires 0 <= j < |t.subTasks| => SubParams(t.subTasks[j])))
  }

  function AllParams(ts: seq<MainTask>): seq<TaskParams> {
    seq(|ts|, i requires 0 <= i < |ts| => MainParams(ts[i]))
  }

  function ToSubTask(r: TaskRow): SubTask { SubTask(r.id, r.description, r.isDone) }

  function ToMainTask(r: TaskRow, subTasks: seq<SubTask>): MainTask {
    MainTask(r.id, r.description, r.isDone, FromNullable(r.dueDate), FromNullable(r.recurrence), subTasks)
  }
}

/** ORDER BY as the engine promises it: some listing of the selected rows, sorted by the keys.
    Rows with equal keys may come in any order. */
module OrderBy {
  ghost predicate Sorted<T(!new)>(xs: seq<T>, le: (T, T) -> bool) {
    forall i, j | 0 <= i < j < |xs| :: le(xs[i], xs[j])
  }

  ghost predicate Distinct<T(!new)>(xs: seq<T>) {
    forall i, j | 0 <= i < j < |xs| :: xs[i] != xs[j]
  }

  ghost predicate Lists<T(!new)>(xs: seq<T>, rows: set<T>) {
    Distinct(xs) && forall x :: x in xs <==> x in rows
  }

  ghost predicate TotalPreorder<T(!new)>(le: (T, T) -> bool) {
    && (forall x, y :: le(x, y) || le(y, x))
    && (forall x, y, z :: le(x, y) && le(y, z) ==> le(x, z))
  }

  lemma InsertAt<T(!new)>(xs: seq<T>, k: nat, x: T, le: (T, T) -> bool)
    requires TotalPreorder(le) && Sorted(xs, le) && Distinct(xs) && x !in xs
    requires k <= |xs| && (forall i | 0 <= i < k :: le(xs[i], x)) && (k < |xs| ==> !le(xs[k], x))
    ensures var ys := xs[..k] + [x] + xs[k..];
      Sorted(ys, le) && Distinct(ys) && forall y :: y in ys <==> y == x || y in xs
  {
    var ys := xs[..k] + [x] + xs[k..];
    assert k < |xs| ==> le(x, xs[k]);
    forall i | k <= i < |xs| ensures le(x, xs[i]) {
      if i > k { assert le(xs[k], xs[i]); }
    }
    assert forall y :: y in xs <==> y in xs[..k] + xs[k..] by { assert xs == xs[..k] + xs[k..]; }
  }

  method Select<T(==,!new)>(rows: set<T>, le: (T, T) -> bool) returns (xs: seq<T>)
    requires TotalPreorder(le)
    ensures Lists(xs, rows) && Sorted(xs, le)
  {
    xs := [];
    var rest := rows;
    while rest != {}
      invariant rest <= rows
      invariant Lists(xs, rows - rest) && Sorted(xs, le)
      decreases rest
    {
      var x :| x in rest;
      var k := 0;
      while k < |xs| && le(xs[k], x)
        invariant 0 <= k <= |xs|
        invariant forall i | 0 <= i < k :: le(xs[i], x)
      {
        k := k + 1;
      }
      InsertAt(xs, k, x, le);
      ghost var before := xs;
      xs := xs[..k] + [x] + xs[k..];
      assert forall y :: y in xs <==> y == x || y in before;
      rest := rest - {x};
    }
  }

  function Filter<T>(xs: seq<T>, keep: T -> bool): (r: seq<T>)
  {
    if xs == [] then [] else (if keep(xs[0]) then [xs[0]] else []) + Filter(xs[1..], keep)
  }

  lemma {:induction false} FilterIn<T(!new)>(xs: seq<T>, keep: T -> bool)
    ensures forall x :: x in Filter(xs, keep) <==> x in xs && keep(x)
  {
    if xs == [] {
    } else {
      FilterIn(xs[1..], keep);
    }
  }

  /** What is kept keeps its order. */
  lemma {:induction false} FilterOrdered<T(!new)>(xs: seq<T>, keep: T -> bool, le: (T, T) -> bool)
    ensures Sorted(xs, le) ==> Sorted(Filter(xs, keep), le)
    ensures Distinct(xs) ==> Distinct(Filter(xs, keep))
  {
    if xs == [] {
    } else {
      var rest := Filter(xs[1..], keep);
      FilterOrdered(xs[1..], keep, le);
      FilterIn(xs[1..], keep);
      forall i | 0 <= i < |rest| ensures Sorted(xs, le) ==> le(xs[0], rest[i])
                                  ensures Distinct(xs) ==> xs[0] != rest[i] {
        assert rest[i] in rest;
        var j :| 0 <= j < |xs[1..]| && xs[1..][j] == rest[i];
        assert xs[j + 1] == rest[i];
      }
    }
  }

  lemma {:induction false} FilterSnoc<T>(xs: seq<T>, x: T, keep: T -> bool)
    ensures Filter(xs + [x], keep) == Filter(xs, keep) + if keep(x) then [x] else []
  {
    if xs == [] {
      assert xs + [x] == [x];
    } else {
      FilterSnoc(xs[1..], x, keep);
      assert (xs + [x])[1..] == xs[1..] + [x];
    }
  }

  /** `at` lists the kept positions of `xs` in order. */
  ghost predicate KeptAt<T(!new)>(xs: seq<T>, keep: T -> bool, at: seq<nat>) {
    && (forall i, j | 0 <= i < j < |at| :: at[i] < at[j])
    && (forall i | 0 <= i < |at| :: at[i] < |xs|)
    && (forall k | 0 <= k < |xs| :: k in at <==> keep(xs[k]))
  }

  function Shift(at: seq<nat>): seq<nat> { seq(|at|, i requires 0 <= i < |at| => at[i] + 1) }

  lemma ShiftIn(at: seq<nat>, k: nat)
    ensures k in Shift(at) <==> k > 0 && k - 1 in at
  {
    if k > 0 && k - 1 in at {
      var i :| 0 <= i < |at| && at[i] == k - 1;
      assert Shift(at)[i] == k;
    }
  }

  lemma KeptAtShift<T(!new)>(xs: seq<T>, keep: T -> bool, rest: seq<nat>)
    requires xs != [] && KeptAt(xs[1..], keep, rest)
    ensures KeptAt(xs, keep, (if keep(xs[0]) then [0] else []) + Shift(rest))
  {
    var at := (if keep(xs[0]) then [0] else []) + Shift(rest);
    forall k | 0 <= k < |xs| ensures k in at <==> keep(xs[k]) {
      ShiftIn(rest, k);
      assert k > 0 ==> xs[k] == xs[1..][k - 1];
    }
  }

  /** `ys` is what `at` picks from `xs`. */
  ghost predicate Picks<T>(xs: seq<T>, at: seq<nat>, ys: seq<T>) {
    |at| == |ys| && forall i | 0 <= i < |at| :: at[i] < |xs| && ys[i] == xs[at[i]]
  }

  lemma PicksShift<T>(xs: seq<T>, first: bool, rest: seq<nat>, ys: seq<T>)
    requires xs != [] && Picks(xs[1..], rest, ys)
    ensures Picks(xs, (if first then [0] else []) + Shift(rest), (if first then [xs[0]] else []) + ys)
  {}

  /** What is kept is a subsequence of the input, and what is skipped is not kept. */
  lemma {:induction false} FilterSubsequence<T(!new)>(xs: seq<T>, keep: T -> bool) returns (at: seq<nat>)
    ensures KeptAt(xs, keep, at) && Picks(xs, at, Filter(xs, keep))
  {
    at := [];
    if xs == [] {
    } else {
      var rest := FilterSubsequence(xs[1..], keep);
      KeptAtShift(xs, keep, rest);
      PicksShift(xs, keep(xs[0]), rest, Filter(xs[1..], keep));
      at := (if keep(xs[0]) then [0] else []) + Shift(rest);
    }
  }

  function Elements<T(!new)>(xs: seq<T>): set<T> { set x | x in xs }

  lemma {:induction false} DistinctCount<T(!new)>(xs: seq<T>)
    requires Distinct(xs)
    ensures |Elements(xs)| == |xs|
  {
    if xs == [] {
    } else {
      DistinctCount(xs[1..]);
      assert Elements(xs) == Elements(xs[1..]) + {xs[0]};
    }
  }

  /** Filtering two lists by the same pattern keeps the same number. */
  lemma {:induction false} FilterSameLength<T, U>(xs: seq<T>, ys: seq<U>, p: T -> bool, q: U -> bool)
    requires |xs| == |ys| && forall i | 0 <= i < |xs| :: p(xs[i]) == q(ys[i])
    ensures |Filter(xs, p)| == |Filter(ys, q)|
  {
    if xs == [] {
    } else {
      FilterSameLength(xs[1..], ys[1..], p, q);
    }
  }

  lemma {:induction false} InjectiveImage<K, V>(m: map<K, V>)
    requires forall a, b | a in m && b in m && a != b :: m[a] != m[b]
    ensures |m.Values| == |m.Keys|
    decreases |m|
  {
    if m.Keys == {} {
    } else {
      var k :| k in m;
      var rest := m - {k};
      InjectiveImage(rest);
      assert m.Keys == rest.Keys + {k};
      forall v ensures v in m.Values <==> v in rest.Values + {m[k]} {
        if v in m.Values && v != m[k] {
          var a :| a in m && m[a] == v;
          assert rest[a] == v;
        }
      }
      assert m.Values == rest.Values + {m[k]};
      assert m[k] !in rest.Values;
    }
  }
}
