/** Upcoming tasks (`tasks/list_upcoming_main_tasks.go`): what the notification query shows of the stored
    trees, and when it is in date order. */
module Upcoming {
  import opened Strings
  import opened Rows
  import opened OrderBy
  import opened Dates
  import opened DateOrder
  import opened TaskTree
  import opened TaskStore
  import opened TaskForest
  import opened TaskUpdate
  import opened TaskLists
  import D = Database

  /** `pb.UpcomingMainTask`. */
  datatype UpcomingTask = UpcomingTask(taskId: string, listId: string, title: string, dueDate: string)

  function ShowsRow(r: TaskRow): UpcomingTask {
    UpcomingTask(r.id, FromNullable(r.listId), r.description, FromNullable(r.dueDate))
  }

  function ShowsRows(rows: seq<TaskRow>): seq<UpcomingTask> {
    seq(|rows|, i requires 0 <= i < |rows| => ShowsRow(rows[i]))
  }

  /** An open task with a due date whose text is not before the cutoff's. */
  predicate IsDue(t: MainTask, from: string) { !t.isDone && t.dueDate != "" && !Less(t.dueDate, from) }

  /** What is shown is a main task of a stored tree that is open and has a due date not before the cutoff: its id,
      its list's id, its description and its date. */
  ghost predicate DueInTrees(trees: Trees, u: UpcomingTask, from: string) {
    u.listId in trees && exists i: nat :: i < |trees[u.listId]| && ShowsDue(trees[u.listId][i], u, from)
  }

  ghost predicate ShowsDue(t: MainTask, u: UpcomingTask, from: string) {
    && !t.isDone && t.dueDate != "" && (Less(from, t.dueDate) || from == t.dueDate)
    && u.taskId == t.id && u.title == t.description && u.dueDate == t.dueDate
  }

  lemma DueNotBefore(t: MainTask, from: string)
    ensures IsDue(t, from) <==> !t.isDone && t.dueDate != "" && (Less(from, t.dueDate) || from == t.dueDate)
  {
    LessTotal(from, t.dueDate);
    LessIrreflexive(from);
    if Less(t.dueDate, from) && Less(from, t.dueDate) { LessTransitive(from, t.dueDate, from); }
  }

  // ---- The shape of stored dates ----

  /** Every stored due date is the text of a date. */
  ghost predicate DatedTrees(trees: Trees) { forall l | l in trees :: AllDated(trees[l]) }

  /** Every stored due date has the shape validation asks for. */
  ghost predicate ShapedTrees(trees: Trees) { forall l | l in trees :: AllShaped(trees[l]) }

  /** The rows of the main tasks carry the dates of the trees. */
  lemma TreesGiveRows(lists: map<string, ListRow>, tasks: Tasks, trees: Trees)
    requires Holds(lists, tasks, trees)
    ensures DatedTrees(trees) ==> D.RowsDated(tasks)
    ensures ShapedTrees(trees) ==>
      forall id | id in tasks && tasks[id].listId.Some? && tasks[id].dueDate.Some? ::
        DateShaped(tasks[id].dueDate.value)
  {
    forall id | id in tasks && tasks[id].listId.Some? && tasks[id].dueDate.Some?
      ensures DatedTrees(trees) ==> Dated(tasks[id].dueDate.value)
      ensures ShapedTrees(trees) ==> DateShaped(tasks[id].dueDate.value)
    {
      var l, i := MainRowAt(lists, tasks, trees, id);
      assert trees[l][i] in trees[l];
    }
  }

  // ---- What is shown ----

  lemma ShownAreDue(lists: map<string, ListRow>, tasks: Tasks, trees: Trees, from: string, rows: seq<TaskRow>)
    requires Holds(lists, tasks, trees) && Lists(rows, D.UpcomingRows(tasks, from))
    ensures forall u :: u in ShowsRows(rows) <==> DueInTrees(trees, u, from)
    ensures forall i, j | 0 <= i < j < |rows| :: rows[i].id != rows[j].id
  {
    forall r | r in rows ensures DueInTrees(trees, ShowsRow(r), from) && r.id in tasks && tasks[r.id] == r {
      RowIsDue(lists, tasks, trees, from, r);
    }
    forall u | u in ShowsRows(rows) ensures DueInTrees(trees, u, from) {
      var k :| 0 <= k < |rows| && ShowsRows(rows)[k] == u;
      assert rows[k] in rows;
    }
    forall u | DueInTrees(trees, u, from) ensures u in ShowsRows(rows) {
      var l := u.listId;
      var i: nat :| i < |trees[l]| && ShowsDue(trees[l][i], u, from);
      DueNotBefore(trees[l][i], from);
      TreeRowStored(tasks, l, trees[l], i);
      var row := MainRow(l, trees[l][i], i);
      assert row in D.UpcomingRows(tasks, from);
      var k :| 0 <= k < |rows| && rows[k] == row;
      assert ShowsRows(rows)[k] == u;
    }
    forall i, j | 0 <= i < j < |rows| ensures rows[i].id != rows[j].id { assert rows[i] in rows && rows[j] in rows; }
  }

  lemma RowIsDue(lists: map<string, ListRow>, tasks: Tasks, trees: Trees, from: string, r: TaskRow)
    requires Holds(lists, tasks, trees) && r in D.UpcomingRows(tasks, from)
    ensures DueInTrees(trees, ShowsRow(r), from) && r.id in tasks && tasks[r.id] == r
  {
    var id :| id in tasks && D.IsUpcoming(tasks[id], from) && tasks[id] == r;
    assert RowOk(lists.Keys, tasks, id);
    var l, i := MainRowAt(lists, tasks, trees, id);
    DueNotBefore(trees[l][i], from);
    assert ShowsDue(trees[l][i], ShowsRow(r), from);
  }

  // ---- In date order ----

  function DayOf(u: UpcomingTask): Date { DateOf(u.dueDate) }

  /** No later date stands before an earlier one. */
  ghost predicate InDateOrder(shown: seq<UpcomingTask>) {
    forall i, j | 0 <= i < j < |shown| :: !DateLess(DayOf(shown[j]), DayOf(shown[i]))
  }

  /** Which tasks are due goes by years that compare as texts the way they compare as numbers. */
  lemma DueIff(t: MainTask, from: string)
    requires (t.dueDate == "" || Dated(t.dueDate)) && DateShaped(from)
    ensures IsDue(t, from) <==>
      && !t.isDone && t.dueDate != ""
      && (DateLess(DateOf(t.dueDate), Fields(from)) <==> !SameOrder(DateOf(t.dueDate).year, Fields(from).year))
  {
    ShapedIsDated(from);
    if t.dueDate != "" { D.DatedOrder(t.dueDate, from); }
  }

  lemma ShownChronological(rows: seq<TaskRow>)
    ensures InDateOrder(ShowsRows(rows)) <==> D.Chronological(rows)
  {
    forall i | 0 <= i < |rows| ensures DayOf(ShowsRows(rows)[i]) == D.DueOf(rows[i]) {}
    if InDateOrder(ShowsRows(rows)) {
      forall i, j | 0 <= i < j < |rows| ensures !DateLess(D.DueOf(rows[j]), D.DueOf(rows[i])) {
        assert !DateLess(DayOf(ShowsRows(rows)[j]), DayOf(ShowsRows(rows)[i]));
      }
    }
    if D.Chronological(rows) {
      forall i, j | 0 <= i < j < |rows| ensures !DateLess(DayOf(ShowsRows(rows)[j]), DayOf(ShowsRows(rows)[i])) {
        assert !DateLess(D.DueOf(rows[j]), D.DueOf(rows[i]));
      }
    }
  }

  /** Any two years of the rows compare as texts the way they compare as numbers. */
  ghost predicate YearsAgree(rows: seq<TaskRow>) {
    forall i, j | 0 <= i < j < |rows| :: SameOrder(D.DueOf(rows[i]).year, D.DueOf(rows[j]).year)
  }

  /** The answer is in date order if and only if its years agree, whatever dates are stored; which tasks it
      has goes by the same comparison with the cutoff. */
  lemma UpcomingOrderIff(lists: map<string, ListRow>, tasks: Tasks, trees: Trees, from: string, rows: seq<TaskRow>)
    requires Holds(lists, tasks, trees) && DatedTrees(trees) && DateShaped(from)
    requires Lists(rows, D.UpcomingRows(tasks, from)) && Sorted(rows, D.DueLe)
    ensures InDateOrder(ShowsRows(rows)) <==> YearsAgree(rows)
    ensures forall l, t | l in trees && t in trees[l] :: IsDue(t, from) <==>
      && !t.isDone && t.dueDate != ""
      && (DateLess(DateOf(t.dueDate), Fields(from)) <==> !SameOrder(DateOf(t.dueDate).year, Fields(from).year))
  {
    TreesGiveRows(lists, tasks, trees);
    D.UpcomingOrderIff(rows, tasks, from);
    ShownChronological(rows);
    forall l, t | l in trees && t in trees[l]
      ensures IsDue(t, from) <==>
        && !t.isDone && t.dueDate != ""
        && (DateLess(DateOf(t.dueDate), Fields(from)) <==> !SameOrder(DateOf(t.dueDate).year, Fields(from).year))
    {
      DueIff(t, from);
    }
  }

  /** With date-shaped dates the answer has exactly the open tasks dated on or after the cutoff, in date order. */
  lemma UpcomingInOrder(lists: map<string, ListRow>, tasks: Tasks, trees: Trees, from: string, rows: seq<TaskRow>)
    requires Holds(lists, tasks, trees) && ShapedTrees(trees) && DateShaped(from)
    requires Lists(rows, D.UpcomingRows(tasks, from)) && Sorted(rows, D.DueLe)
    ensures InDateOrder(ShowsRows(rows))
    ensures forall l, t | l in trees && t in trees[l] ::
      IsDue(t, from) <==> !t.isDone && t.dueDate != "" && !DateLess(Fields(t.dueDate), Fields(from))
  {
    TreesGiveRows(lists, tasks, trees);
    D.UpcomingChronological(rows, tasks, from);
    forall i, j | 0 <= i < j < |rows| ensures !DateLess(DayOf(ShowsRows(rows)[j]), DayOf(ShowsRows(rows)[i])) {
      ShapedIsDated(rows[i].dueDate.value);
      ShapedIsDated(rows[j].dueDate.value);
    }
    forall l, t | l in trees && t in trees[l] && t.dueDate != ""
      ensures Less(t.dueDate, from) <==> DateLess(Fields(t.dueDate), Fields(from))
    {
      TextOrderIsDateOrder(t.dueDate, from);
    }
  }

  /** The answer is listed by the text of the date, then by id. */
  lemma ListedByText(rows: seq<TaskRow>)
    requires Sorted(rows, D.DueLe) && forall i, j | 0 <= i < j < |rows| :: rows[i].id != rows[j].id
    ensures forall i, j | 0 <= i < j < |rows| ::
      var a, b := ShowsRows(rows)[i], ShowsRows(rows)[j];
      Less(a.dueDate, b.dueDate) || (a.dueDate == b.dueDate && Less(a.taskId, b.taskId))
  {
    forall i, j | 0 <= i < j < |rows|
      ensures var a, b := ShowsRows(rows)[i], ShowsRows(rows)[j];
        Less(a.dueDate, b.dueDate) || (a.dueDate == b.dueDate && Less(a.taskId, b.taskId))
    {
      assert D.DueLe(rows[i], rows[j]);
      LessTotal(rows[i].id, rows[j].id);
    }
  }

  // ---- The handler ----

  /** `ListUpcomingMainTasks`: the undone main tasks of all lists on or after the cutoff, each once; in date
      order exactly if their years agree, and always if the dates are well shaped. */
  method ListUpcomingMainTasks(db: D.Database, from: string, ghost trees: Trees)
    returns (r: Reply<seq<UpcomingTask>>, ghost rows: seq<TaskRow>)
    requires Holds(db.lists, db.tasks, trees)
    ensures r.Invalid? <==> Parse(from).None?
    ensures r.Ok? ==> forall u :: u in r.value <==> DueInTrees(trees, u, from)
    ensures r.Ok? ==> r.value == ShowsRows(rows) && Lists(rows, D.UpcomingRows(db.tasks, from)) && Sorted(rows, D.DueLe)
    ensures r.Ok? ==> forall i, j | 0 <= i < j < |r.value| ::
      var a, b := r.value[i], r.value[j];
      a.taskId != b.taskId && (Less(a.dueDate, b.dueDate) || (a.dueDate == b.dueDate && Less(a.taskId, b.taskId)))
    ensures r.Ok? && DatedTrees(trees) ==> (InDateOrder(r.value) <==> YearsAgree(rows))
    ensures r.Ok? && ShapedTrees(trees) ==> InDateOrder(r.value)
    ensures !db.faulty ==> (r.Ok? <==> Parse(from).Some?)
    ensures r.Ok? || r.Invalid? || r.Internal?
  {
    rows := [];
    if Parse(from).None? { return Invalid, rows; }
    var found := db.ListUpcomingMainTasks(from);
    if !found.Done? { return Internal, rows; }
    rows := found.value;
    var tasks: seq<UpcomingTask> := [];
    for i := 0 to |found.value|
      invariant tasks == ShowsRows(found.value[..i])
    {
      var row := found.value[i];
      tasks := tasks + [UpcomingTask(row.id, FromNullable(row.listId), row.description, FromNullable(row.dueDate))];
    }
    assert found.value[..|found.value|] == found.value;
    ShownAreDue(db.lists, db.tasks, trees, from, rows);
    ListedByText(rows);
    if DatedTrees(trees) { UpcomingOrderIff(db.lists, db.tasks, trees, from, rows); }
    if ShapedTrees(trees) { UpcomingInOrder(db.lists, db.tasks, trees, from, rows); }
    r := Ok(tasks);
  }
}
