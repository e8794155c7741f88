/** What an update does to the submitted tasks before they are stored: completed recurring tasks
    move on to their next date, and auto-delete drops what is done (`tasks/update_task_list.go`). */
module TaskUpdate {
  import opened Strings
  import opened Rows
  import opened OrderBy
  import opened Dates
  import opened DateOrder

  // ---- Recurrence ----

  /** A point in time: a calendar day and the seconds into it. */
  datatype Instant = Instant(date: Date, second: nat)

  predicate InstantLess(a: Instant, b: Instant) {
    DateLess(a.date, b.date) || (a.date == b.date && a.second < b.second)
  }

  /** The recurrence engine: the first occurrence of a rule after an instant, or none
      (section 3.3.10 of RFC 5545). Invalid rules have none. */
  type NextOccurrence = (string, Instant) -> Option<Instant>

  /** All that is assumed of the engine: an occurrence is a real day, strictly later. */
  ghost predicate StrictlyLater(next: NextOccurrence) {
    forall rule, i :: next(rule, i).Some? ==> InstantLess(i, next(rule, i).value) && IsDate(next(rule, i).value.date)
  }

  /** `existingById[id]`: the map keeps the last task with an id. */
  function Lookup(existing: seq<MainTask>, id: string): Option<MainTask> {
    if existing == [] then None
    else
      var n := |existing| - 1;
      if existing[n].id == id then Some(existing[n]) else Lookup(existing[..n], id)
  }

  /** The task was not done when last stored, is a recurring task, and is submitted as done. */
  predicate Completed(t: MainTask, existing: seq<MainTask>) {
    && t.recurrence != "" && t.isDone
    && var prev := Lookup(existing, t.id);
    && prev.Some? && !prev.value.isDone
  }

  /** One task of `advanceRecurringTasks`; `None` when its date does not parse or has no next occurrence. */
  function Advance(t: MainTask, existing: seq<MainTask>, next: NextOccurrence): Option<MainTask> {
    if !Completed(t, existing) then Some(t)
    else match Parse(t.dueDate)
      case None => None
      case Some(date) =>
        match next(t.recurrence, Instant(date, 0))
        case None => None
        case Some(i) => Some(t.(isDone := false, dueDate := Format(i.date)))
  }

  /** The day of the next occurrence of a task's rule after its due date. */
  function NextDate(t: MainTask, next: NextOccurrence): Option<Date> {
    match Parse(t.dueDate)
    case None => None
    case Some(date) => match next(t.recurrence, Instant(date, 0)) case None => None case Some(i) => Some(i.date)
  }

  /** The lookup finds the last task with an id. */
  lemma {:induction false} LookupLast(existing: seq<MainTask>, k: nat)
    requires k < |existing| && forall j | k < j < |existing| :: existing[j].id != existing[k].id
    ensures Lookup(existing, existing[k].id) == Some(existing[k])
  {
    if k == |existing| - 1 {
    } else {
      LookupLast(existing[..|existing| - 1], k);
    }
  }

  /** It finds nothing exactly if no task has the id. */
  lemma {:induction false} LookupNone(existing: seq<MainTask>, id: string)
    ensures Lookup(existing, id).None? <==> forall p | p in existing :: p.id != id
  {
    if existing == [] {
    } else {
      var n := |existing| - 1;
      LookupNone(existing[..n], id);
      assert existing == existing[..n] + [existing[n]];
    }
  }

  ghost predicate IdsDiffer(ts: seq<MainTask>) { forall j, k | 0 <= j < k < |ts| :: ts[j].id != ts[k].id }

  /** What an update does to one task. If it is done, has a rule, and the stored task with its id is open, it is
      opened again on the day of the rule's next occurrence after the start of its due date, and the update fails if
      there is none. Any other task stays as it is: it is open, it has no rule, no stored task has its id, or the
      stored one was done already. */
  lemma AdvanceExactly(t: MainTask, existing: seq<MainTask>, next: NextOccurrence)
    requires IdsDiffer(existing)
    ensures (exists p :: p in existing && p.id == t.id && !p.isDone) && t.isDone && t.recurrence != "" ==>
      match Parse(t.dueDate)
      case None => Advance(t, existing, next) == None
      case Some(d) =>
        match next(t.recurrence, Instant(d, 0))
        case None => Advance(t, existing, next) == None
        case Some(i) => Advance(t, existing, next) == Some(t.(isDone := false, dueDate := Format(i.date)))
    ensures !t.isDone || t.recurrence == "" || (forall p | p in existing && p.id == t.id :: p.isDone) ==>
      Advance(t, existing, next) == Some(t)
  {
    LookupNone(existing, t.id);
    forall p | p in existing && p.id == t.id ensures Lookup(existing, t.id) == Some(p) {
      var k :| 0 <= k < |existing| && existing[k] == p;
      LookupLast(existing, k);
    }
  }

  /** `AdvanceExactly` for every task. */
  lemma AllExactly(ts: seq<MainTask>, existing: seq<MainTask>, next: NextOccurrence)
    requires IdsDiffer(existing)
    ensures forall i | 0 <= i < |ts| ::
      var t, u := ts[i], Advance(ts[i], existing, next);
      if t.isDone && t.recurrence != "" && exists p :: p in existing && p.id == t.id && !p.isDone
        then u == if Parse(t.dueDate).None? then None else
          var n := next(t.recurrence, Instant(Parse(t.dueDate).value, 0));
          if n.None? then None else Some(t.(isDone := false, dueDate := Format(n.value.date)))
        else u == Some(t)
  {
    forall i | 0 <= i < |ts|
      ensures var t, u := ts[i], Advance(ts[i], existing, next);
        if t.isDone && t.recurrence != "" && exists p :: p in existing && p.id == t.id && !p.isDone
          then u == if Parse(t.dueDate).None? then None else
            var n := next(t.recurrence, Instant(Parse(t.dueDate).value, 0));
            if n.None? then None else Some(t.(isDone := false, dueDate := Format(n.value.date)))
          else u == Some(t)
    {
      AdvanceExactly(ts[i], existing, next);
    }
  }

  /** The first loop of `advanceRecurringTasks`: a map from id to the last task with it. */
  method ById(existing: seq<MainTask>) returns (existingById: map<string, MainTask>)
    ensures forall id :: Lookup(existing, id) == if id in existingById then Some(existingById[id]) else None
  {
    existingById := map[];
    for k := 0 to |existing|
      invariant forall id :: Lookup(existing[..k], id) == if id in existingById then Some(existingById[id]) else None
    {
      assert existing[..k + 1][..k] == existing[..k];
      existingById := existingById[existing[k].id := existing[k]];
    }
    assert existing[..|existing|] == existing;
  }

  /** `advanceRecurringTasks`: in place, stopping at the first error. Of the stored tasks, the last with an id
      counts; where their ids differ, every task that is done, has a rule and is stored open moves on to its next
      date, all others stay, and it fails exactly if some such task has no next date. */
  method AdvanceRecurringTasks(tasks: array<MainTask>, existing: seq<MainTask>, next: NextOccurrence) returns (ok: bool)
    modifies tasks
    ensures ok <==> forall i | 0 <= i < tasks.Length :: Advance(old(tasks[i]), existing, next).Some?
    ensures ok ==> forall i | 0 <= i < tasks.Length :: tasks[i] == Advance(old(tasks[i]), existing, next).value
    ensures ok && IdsDiffer(existing) ==> forall i | 0 <= i < tasks.Length ::
      var t := old(tasks[i]);
      if t.isDone && t.recurrence != "" && exists p :: p in existing && p.id == t.id && !p.isDone
        then Parse(t.dueDate).Some? && var n := next(t.recurrence, Instant(Parse(t.dueDate).value, 0));
          n.Some? && tasks[i] == t.(isDone := false, dueDate := Format(n.value.date))
        else tasks[i] == t
    ensures !ok && IdsDiffer(existing) ==> exists i ::
      && 0 <= i < tasks.Length && old(tasks[i]).isDone && old(tasks[i]).recurrence != ""
      && (exists p :: p in existing && p.id == old(tasks[i]).id && !p.isDone)
      && (Parse(old(tasks[i]).dueDate).Some? ==>
            next(old(tasks[i]).recurrence, Instant(Parse(old(tasks[i]).dueDate).value, 0)).None?)
  {
    if IdsDiffer(existing) { AllExactly(tasks[..], existing, next); }
    var existingById := ById(existing);
    for i := 0 to tasks.Length
      invariant forall k | 0 <= k < i :: Advance(old(tasks[k]), existing, next) == Some(tasks[k])
      invariant forall k | i <= k < tasks.Length :: tasks[k] == old(tasks[k])
    {
      var task := tasks[i];
      if task.recurrence == "" || !task.isDone { continue; }
      if task.id !in existingById || existingById[task.id].isDone { continue; }
      var parsed := Parse(task.dueDate);
      if parsed.None? { return false; }
      var occurrence := next(task.recurrence, Instant(parsed.value, 0));
      if occurrence.None? { return false; }
      tasks[i] := task.(isDone := false, dueDate := Format(occurrence.value.date));
    }
    ok := true;
  }

  // ---- Auto-delete ----

  function Keep(): MainTask -> bool { (t: MainTask) => !(t.isDone && t.recurrence == "") }

  function NotDone(): SubTask -> bool { (st: SubTask) => !st.isDone }

  function Trim(t: MainTask): MainTask { t.(subTasks := Filter(t.subTasks, NotDone())) }

  function TrimAll(ts: seq<MainTask>): seq<MainTask> {
    seq(|ts|, i requires 0 <= i < |ts| => Trim(ts[i]))
  }

  /** What auto-delete leaves: the kept main tasks in order, each with its undone subtasks in order. */
  function AutoDeleted(ts: seq<MainTask>): seq<MainTask> { TrimAll(Filter(ts, Keep())) }

  /** `filterAutoDeleted`. */
  method FilterAutoDeleted(tasks: seq<MainTask>) returns (result: seq<MainTask>)
    ensures result == AutoDeleted(tasks)
  {
    result := [];
    for i := 0 to |tasks|
      invariant result == AutoDeleted(tasks[..i])
    {
      var t := tasks[i];
      assert tasks[..i + 1] == tasks[..i] + [t];
      FilterSnoc(tasks[..i], t, Keep());
      if t.isDone && t.recurrence == "" { continue; }
      var filtered := MainTask(t.id, t.description, t.isDone, t.dueDate, t.recurrence, []);
      for j := 0 to |t.subTasks|
        invariant filtered == t.(subTasks := Filter(t.subTasks[..j], NotDone()))
      {
        assert t.subTasks[..j + 1] == t.subTasks[..j] + [t.subTasks[j]];
        FilterSnoc(t.subTasks[..j], t.subTasks[j], NotDone());
        if !t.subTasks[j].isDone {
          filtered := filtered.(subTasks := filtered.subTasks + [t.subTasks[j]]);
        }
      }
      assert t.subTasks[..|t.subTasks|] == t.subTasks;
      result := result + [filtered];
    }
    assert tasks[..|tasks|] == tasks;
  }

  // ---- The pipeline ----

  function AdvanceAll(ts: seq<MainTask>, existing: seq<MainTask>, next: NextOccurrence): Option<seq<MainTask>> {
    if ts == [] then Some([])
    else match Advance(ts[0], existing, next)
      case None => None
      case Some(t) => match AdvanceAll(ts[1..], existing, next) case None => None case Some(rest) => Some([t] + rest)
  }

  /** The tasks an update stores. */
  function Pipeline(ts: seq<MainTask>, existing: seq<MainTask>, autoDelete: bool,
                    next: NextOccurrence): Option<seq<MainTask>> {
    match AdvanceAll(ts, existing, next)
    case None => None
    case Some(advanced) => Some(if autoDelete then AutoDeleted(advanced) else advanced)
  }

  lemma {:induction false} AdvanceAllAt(ts: seq<MainTask>, existing: seq<MainTask>, next: NextOccurrence)
    ensures AdvanceAll(ts, existing, next).Some? <==> forall i | 0 <= i < |ts| :: Advance(ts[i], existing, next).Some?
    ensures AdvanceAll(ts, existing, next).Some? ==>
      var r := AdvanceAll(ts, existing, next).value;
      |r| == |ts| && forall i | 0 <= i < |ts| :: r[i] == Advance(ts[i], existing, next).value
  {
    if ts == [] {
    } else {
      AdvanceAllAt(ts[1..], existing, next);
      assert forall i | 0 < i < |ts| :: ts[i] == ts[1..][i - 1];
      if Advance(ts[0], existing, next).Some? && forall i | 0 <= i < |ts[1..]| ::
        Advance(ts[1..][i], existing, next).Some? {
        forall i | 0 <= i < |ts| ensures Advance(ts[i], existing, next).Some? {
          if i > 0 { assert ts[i] == ts[1..][i - 1]; }
        }
      }
      if forall i | 0 <= i < |ts| :: Advance(ts[i], existing, next).Some? {
        forall i | 0 <= i < |ts[1..]|
          ensures Advance(ts[1..][i], existing, next).Some?
        {
          assert ts[1..][i] == ts[i + 1];
        }
      }
    }
  }

  // ---- Properties ----

  /** Advancing touches only `isDone` and `dueDate`, and only on a completed recurring task: it is open
      again, and due on the day of the next occurrence. That day is never before the old one; the stored
      text changes exactly if the day does, has the accepted shape exactly up to the year 9999, and sorts
      before the old text exactly between years whose text order is wrong. */
  lemma AdvanceMovesForward(t: MainTask, existing: seq<MainTask>, next: NextOccurrence)
    requires StrictlyLater(next) && Advance(t, existing, next).Some?
    ensures var u := Advance(t, existing, next).value;
      && u.(isDone := t.isDone, dueDate := t.dueDate) == t
      && (u != t ==> Completed(t, existing))
      && (Completed(t, existing) ==> !u.isDone)
    ensures Completed(t, existing) ==> Parse(t.dueDate).Some? && NextDate(t, next).Some?
    ensures Completed(t, existing) ==>
      var u, d, e := Advance(t, existing, next).value, Parse(t.dueDate).value, NextDate(t, next).value;
      && u.dueDate == Format(e) && IsDate(e) && !DateLess(e, d)
      && (u.dueDate == t.dueDate <==> e == d)
      && (DateShaped(u.dueDate) <==> e.year < 10000)
      && (Less(u.dueDate, t.dueDate) <==> !SameOrder(e.year, d.year))
  {
    if Completed(t, existing) {
      var d := Parse(t.dueDate).value;
      var i := next(t.recurrence, Instant(d, 0)).value;
      FormatParse(t.dueDate);
      DateOfFormat(d);
      DateOfFormat(i.date);
      FormatShapedIff(i.date);
      TextOrderIff(i.date, d);
    }
  }

  // ---- Where the date stays, and where its text goes wrong ----

  function Tomorrow(d: Date): Date {
    if d.day < DaysIn(d.year, d.month) then d.(day := d.day + 1) else NextMonth(d)
  }

  lemma TomorrowIsNext(d: Date)
    requires IsDate(d)
    ensures IsDate(Tomorrow(d)) && DayNumber(Tomorrow(d)) == DayNumber(d) + 1
  {
    if d.day == DaysIn(d.year, d.month) {
      DaysInMonth(d.year, d.month);
      FromFirst(d);
    }
  }

  /** FREQ=HOURLY. */
  function Hourly(): NextOccurrence {
    (rule: string, i: Instant) =>
      if !IsDate(i.date) then None
      else if i.second + 3600 < 86400 then Some(Instant(i.date, i.second + 3600))
      else Some(Instant(Tomorrow(i.date), i.second + 3600 - 86400))
  }

  /** FREQ=YEARLY;BYYEARDAY=1. */
  function EveryNewYear(): NextOccurrence {
    (rule: string, i: Instant) => Some(Instant(Date(i.date.year + 1, 1, 1), 0))
  }

  /** An hourly task is due again on the day it was completed for. */
  lemma HourlyStays(t: MainTask, existing: seq<MainTask>)
    requires Completed(t, existing) && Parse(t.dueDate).Some?
    ensures StrictlyLater(Hourly())
    ensures Advance(t, existing, Hourly()) == Some(t.(isDone := false))
  {
    FormatParse(t.dueDate);
  }

  /** A task due in 9999 can be advanced into the year 10000; its new text sorts before the old one, and
      validation would refuse it. */
  lemma AdvancesIntoYearTenThousand(t: MainTask, existing: seq<MainTask>)
    requires Completed(t, existing) && t.dueDate == "9999-12-31"
    ensures StrictlyLater(EveryNewYear())
    ensures Advance(t, existing, EveryNewYear()) == Some(t.(isDone := false, dueDate := "10000-01-01"))
    ensures Less("10000-01-01", t.dueDate) && !DateShaped("10000-01-01")
  {
    assert Fields(t.dueDate) == Date(9999, 12, 31);
    assert Format(Date(10000, 1, 1)) == "10000-01-01" by {
      assert YearText(1000) == "1000" && YearText(10000) == "10000";
    }
  }

  // ---- The shape of stored dates ----

  /** Due dates as validation asks for them. */
  ghost predicate AllShaped(ts: seq<MainTask>) { forall t | t in ts :: t.dueDate == "" || DateShaped(t.dueDate) }

  /** Due dates that are the text of some date, in any year. */
  ghost predicate AllDated(ts: seq<MainTask>) { forall t | t in ts :: t.dueDate == "" || Dated(t.dueDate) }

  lemma ShapedAreDated(ts: seq<MainTask>)
    requires AllShaped(ts)
    ensures AllDated(ts)
  {
    forall t | t in ts && t.dueDate != "" ensures Dated(t.dueDate) { ShapedIsDated(t.dueDate); }
  }

  /** What can be checked before an update: the task does not move on past the year 9999. */
  predicate StaysBelow(t: MainTask, existing: seq<MainTask>, next: NextOccurrence) {
    Completed(t, existing) ==> NextDate(t, next).Some? && NextDate(t, next).value.year < 10000
  }

  lemma AdvanceShapedIff(t: MainTask, existing: seq<MainTask>, next: NextOccurrence)
    requires Advance(t, existing, next).Some? && (t.dueDate == "" || DateShaped(t.dueDate))
    ensures var u := Advance(t, existing, next).value;
      u.dueDate == "" || DateShaped(u.dueDate) <==> StaysBelow(t, existing, next)
  {
    if Completed(t, existing) { FormatShapedIff(NextDate(t, next).value); }
  }

  /** What auto-delete drops is done, and it changes no date. */
  lemma AutoDeletedDates(ts: seq<MainTask>)
    ensures forall t | t in ts && !t.isDone && AllShaped(AutoDeleted(ts)) :: t.dueDate == "" || DateShaped(t.dueDate)
    ensures AllShaped(ts) ==> AllShaped(AutoDeleted(ts))
    ensures AllDated(ts) ==> AllDated(AutoDeleted(ts))
  {
    AutoDeletedExactly(ts);
    forall u | u in AutoDeleted(ts)
      ensures AllShaped(ts) ==> u.dueDate == "" || DateShaped(u.dueDate)
      ensures AllDated(ts) ==> u.dueDate == "" || Dated(u.dueDate)
    {
      var t :| t in ts && u == Trim(t);
    }
    forall t | t in ts && !t.isDone && AllShaped(AutoDeleted(ts)) ensures t.dueDate == "" || DateShaped(t.dueDate) {
      assert Trim(t) in AutoDeleted(ts);
    }
  }

  /** From well-shaped dates an update stores well-shaped dates if and only if no completed task moves on
      past the year 9999. */
  lemma PipelineShapedIff(ts: seq<MainTask>, existing: seq<MainTask>, autoDelete: bool, next: NextOccurrence)
    requires AllShaped(ts) && Pipeline(ts, existing, autoDelete, next).Some?
    ensures AllShaped(Pipeline(ts, existing, autoDelete, next).value)
       <==> forall t | t in ts :: StaysBelow(t, existing, next)
  {
    var advanced := AdvanceAll(ts, existing, next).value;
    AdvanceAllAt(ts, existing, next);
    AdvancedShapedIff(ts, advanced, existing, next);
    AutoDeletedDates(advanced);
  }

  lemma AdvancedShapedIff(ts: seq<MainTask>, advanced: seq<MainTask>, existing: seq<MainTask>, next: NextOccurrence)
    requires AllShaped(ts) && |advanced| == |ts|
    requires forall i | 0 <= i < |ts| :: Advance(ts[i], existing, next) == Some(advanced[i])
    ensures AllShaped(advanced) <==> forall t | t in ts :: StaysBelow(t, existing, next)
    ensures forall u | u in advanced && u.isDone :: u.dueDate == "" || DateShaped(u.dueDate)
  {
    forall i | 0 <= i < |ts|
      ensures advanced[i].dueDate == "" || DateShaped(advanced[i].dueDate) <==> StaysBelow(ts[i], existing, next)
      ensures advanced[i].isDone ==> advanced[i].dueDate == "" || DateShaped(advanced[i].dueDate)
    {
      assert ts[i] in ts && advanced[i] in advanced;
      AdvanceShapedIff(ts[i], existing, next);
    }
    forall t | t in ts && AllShaped(advanced) ensures StaysBelow(t, existing, next) {
      var i :| 0 <= i < |ts| && ts[i] == t;
      assert advanced[i] in advanced;
    }
    if forall t | t in ts :: StaysBelow(t, existing, next) {
      forall u | u in advanced ensures u.dueDate == "" || DateShaped(u.dueDate) {
        var i :| 0 <= i < |advanced| && advanced[i] == u;
        assert ts[i] in ts;
      }
    }
  }

  /** Whatever the year, an update stores only texts of dates. */
  lemma PipelineDated(ts: seq<MainTask>, existing: seq<MainTask>, autoDelete: bool, next: NextOccurrence)
    requires StrictlyLater(next) && AllShaped(ts) && Pipeline(ts, existing, autoDelete, next).Some?
    ensures AllDated(Pipeline(ts, existing, autoDelete, next).value)
  {
    var advanced := AdvanceAll(ts, existing, next).value;
    AdvanceAllAt(ts, existing, next);
    forall u | u in advanced ensures u.dueDate == "" || Dated(u.dueDate) {
      var i :| 0 <= i < |advanced| && advanced[i] == u;
      assert ts[i] in ts;
      AdvanceDated(ts[i], existing, next);
    }
    AutoDeletedDates(advanced);
  }

  lemma AdvanceDated(t: MainTask, existing: seq<MainTask>, next: NextOccurrence)
    requires StrictlyLater(next) && Advance(t, existing, next).Some? && (t.dueDate == "" || DateShaped(t.dueDate))
    ensures var u := Advance(t, existing, next).value; u.dueDate == "" || Dated(u.dueDate)
  {
    if Completed(t, existing) {
      DateOfFormat(NextDate(t, next).value);
    } else if t.dueDate != "" {
      ShapedIsDated(t.dueDate);
    }
  }

  /** Nothing that should go is left, and nothing else is gone. */
  lemma AutoDeletedExactly(ts: seq<MainTask>)
    ensures forall u | u in AutoDeleted(ts) ::
      !(u.isDone && u.recurrence == "") && forall st | st in u.subTasks :: !st.isDone
    ensures forall t | t in ts && !(t.isDone && t.recurrence == "") :: Trim(t) in AutoDeleted(ts)
    ensures forall t, st | t in ts && st in t.subTasks && !st.isDone :: st in Trim(t).subTasks
    ensures forall u | u in AutoDeleted(ts) :: exists t :: t in ts && u == Trim(t)
  {
    var kept := Filter(ts, Keep());
    FilterIn(ts, Keep());
    forall u | u in AutoDeleted(ts)
      ensures !(u.isDone && u.recurrence == "") && (forall st | st in u.subTasks :: !st.isDone)
      ensures exists t :: t in ts && u == Trim(t)
    {
      var i :| 0 <= i < |kept| && AutoDeleted(ts)[i] == u;
      assert kept[i] in kept && u == Trim(kept[i]);
      FilterIn(kept[i].subTasks, NotDone());
    }
    forall t | t in ts && !(t.isDone && t.recurrence == "") ensures Trim(t) in AutoDeleted(ts) {
      assert t in kept;
      var i :| 0 <= i < |kept| && kept[i] == t;
      assert AutoDeleted(ts)[i] == Trim(t);
    }
    forall t, st | t in ts && st in t.subTasks && !st.isDone
      ensures st in Trim(t).subTasks
    {
      FilterIn(t.subTasks, NotDone());
    }
  }

  /** The survivors keep their order. */
  lemma AutoDeletedInOrder(ts: seq<MainTask>) returns (at: seq<nat>)
    ensures |at| == |AutoDeleted(ts)|
    ensures forall i, j | 0 <= i < j < |at| :: at[i] < at[j]
    ensures forall i | 0 <= i < |at| :: at[i] < |ts| && AutoDeleted(ts)[i] == Trim(ts[at[i]])
    ensures forall k | 0 <= k < |ts| :: k in at <==> !(ts[k].isDone && ts[k].recurrence == "")
  {
    at := FilterSubsequence(ts, Keep());
  }

  lemma {:induction false} FilterShorter<T>(xs: seq<T>, keep: T -> bool)
    ensures |Filter(xs, keep)| <= |xs|
  {
    if xs == [] {
    } else {
      FilterShorter(xs[1..], keep);
    }
  }

  /** What an update can make of a task, but for its date: the same task with fewer subtasks. */
  ghost predicate Derived(t: MainTask, u: MainTask) {
    && u.description == t.description && u.recurrence == t.recurrence && (t.dueDate != "" ==> u.dueDate != "")
    && |u.subTasks| <= |t.subTasks| && forall st | st in u.subTasks :: st in t.subTasks
  }

  lemma AdvanceDerived(t: MainTask, existing: seq<MainTask>, next: NextOccurrence)
    requires Advance(t, existing, next).Some?
    ensures Derived(t, Advance(t, existing, next).value)
  {
    if Completed(t, existing) { FormatShapedIff(NextDate(t, next).value); }
  }

  lemma TrimDerived(t: MainTask, w: MainTask)
    requires Derived(t, w)
    ensures Derived(t, Trim(w))
  {
    FilterShorter(w.subTasks, NotDone());
    FilterIn(w.subTasks, NotDone());
  }

  lemma AllAdvancedDerived(ts: seq<MainTask>, existing: seq<MainTask>, next: NextOccurrence)
    requires AdvanceAll(ts, existing, next).Some?
    ensures forall w | w in AdvanceAll(ts, existing, next).value :: exists t :: t in ts && Derived(t, w)
  {
    var advanced := AdvanceAll(ts, existing, next).value;
    AdvanceAllAt(ts, existing, next);
    forall w | w in advanced ensures exists t :: t in ts && Derived(t, w) {
      var i :| 0 <= i < |advanced| && advanced[i] == w;
      AdvanceDerived(ts[i], existing, next);
      assert ts[i] in ts && Derived(ts[i], w);
    }
  }

  lemma AutoDeletedDerived(ts: seq<MainTask>, ws: seq<MainTask>)
    requires forall w | w in ws :: exists t :: t in ts && Derived(t, w)
    ensures |AutoDeleted(ws)| <= |ws| && forall u | u in AutoDeleted(ws) :: exists t :: t in ts && Derived(t, u)
  {
    FilterShorter(ws, Keep());
    FilterIn(ws, Keep());
    forall u | u in AutoDeleted(ws) ensures exists t :: t in ts && Derived(t, u) {
      var i :| 0 <= i < |AutoDeleted(ws)| && AutoDeleted(ws)[i] == u;
      var w := Filter(ws, Keep())[i];
      assert w in Filter(ws, Keep()) && u == Trim(w);
      var t :| t in ts && Derived(t, w);
      TrimDerived(t, w);
    }
  }

  /** Every stored task is derived from a submitted one, and there are no more of them. */
  lemma PipelineDerived(ts: seq<MainTask>, existing: seq<MainTask>, autoDelete: bool, next: NextOccurrence)
    requires Pipeline(ts, existing, autoDelete, next).Some?
    ensures var out := Pipeline(ts, existing, autoDelete, next).value;
      |out| <= |ts| && forall u | u in out :: exists t :: t in ts && Derived(t, u)
  {
    AdvanceAllAt(ts, existing, next);
    AllAdvancedDerived(ts, existing, next);
    AutoDeletedDerived(ts, AdvanceAll(ts, existing, next).value);
  }

  lemma {:induction false} FilterAll<T(!new)>(xs: seq<T>, keep: T -> bool)
    requires forall x | x in xs :: keep(x)
    ensures Filter(xs, keep) == xs
  {
    if xs == [] {
    } else {
      assert xs[0] in xs;
      FilterAll(xs[1..], keep);
      assert xs == [xs[0]] + xs[1..];
    }
  }

  lemma AutoDeletedIdempotent(ts: seq<MainTask>)
    ensures AutoDeleted(AutoDeleted(ts)) == AutoDeleted(ts)
  {
    var us := AutoDeleted(ts);
    AutoDeletedExactly(ts);
    FilterAll(us, Keep());
    forall i | 0 <= i < |us| ensures Trim(us[i]) == us[i] {
      assert us[i] in us;
      FilterAll(us[i].subTasks, NotDone());
    }
  }

  /** `AdvanceExactly` for all tasks at once. */
  lemma AdvancedExactly(ts: seq<MainTask>, existing: seq<MainTask>, next: NextOccurrence)
    requires IdsDiffer(existing) && AdvanceAll(ts, existing, next).Some?
    ensures var us := AdvanceAll(ts, existing, next).value;
      && |us| == |ts|
      && (forall i | 0 <= i < |ts| ::
            && us[i].subTasks == ts[i].subTasks
            && (us[i].isDone && us[i].recurrence == "" <==> ts[i].isDone && ts[i].recurrence == ""))
    ensures var us := AdvanceAll(ts, existing, next).value; forall i | 0 <= i < |ts| ::
      var t := ts[i];
      if t.isDone && t.recurrence != "" && exists p :: p in existing && p.id == t.id && !p.isDone
        then Parse(t.dueDate).Some? && var n := next(t.recurrence, Instant(Parse(t.dueDate).value, 0));
          n.Some? && us[i] == t.(isDone := false, dueDate := Format(n.value.date))
        else us[i] == t
  {
    AdvanceAllAt(ts, existing, next);
    AllExactly(ts, existing, next);
  }

  /** An update fails here exactly if some just completed recurring task has no next date. */
  lemma PipelineNoneIff(ts: seq<MainTask>, existing: seq<MainTask>, autoDelete: bool, next: NextOccurrence)
    requires IdsDiffer(existing)
    ensures Pipeline(ts, existing, autoDelete, next).None? <==> exists t ::
      && t in ts && t.isDone && t.recurrence != "" && (exists p :: p in existing && p.id == t.id && !p.isDone)
      && (Parse(t.dueDate).None? || next(t.recurrence, Instant(Parse(t.dueDate).value, 0)).None?)
  {
    AdvanceAllAt(ts, existing, next);
    AllExactly(ts, existing, next);
    if Pipeline(ts, existing, autoDelete, next).None? {
      var i :| 0 <= i < |ts| && Advance(ts[i], existing, next).None?;
      assert ts[i] in ts;
    }
  }

  /** What an update makes of the submitted tasks, task by task. The positions `at` are those of the tasks that stay:
      all, or with auto-delete all but the done ones without a rule. Each of them is stored as it is, but for its
      done subtasks if they go, unless it is a recurring task that was just done: that one is open again on its next
      date. */
  ghost predicate StoresExactly(ts: seq<MainTask>, us: seq<MainTask>, at: seq<nat>, existing: seq<MainTask>,
                                autoDelete: bool, next: NextOccurrence) {
    && |at| == |us|
    && (forall i, j | 0 <= i < j < |at| :: at[i] < at[j])
    && (forall i | 0 <= i < |at| :: at[i] < |ts|)
    && (forall k | 0 <= k < |ts| :: k in at <==> !(autoDelete && ts[k].isDone && ts[k].recurrence == ""))
    && (forall i | 0 <= i < |at| ::
          var t, u := ts[at[i]], us[i];
          if t.isDone && t.recurrence != "" && exists p :: p in existing && p.id == t.id && !p.isDone
            then Parse(t.dueDate).Some? && var n := next(t.recurrence, Instant(Parse(t.dueDate).value, 0));
              n.Some? && u.(subTasks := t.subTasks) == t.(isDone := false, dueDate := Format(n.value.date))
            else u.(subTasks := t.subTasks) == t)
    && (forall i | 0 <= i < |at| ::
          us[i].subTasks == if autoDelete then Filter(ts[at[i]].subTasks, NotDone()) else ts[at[i]].subTasks)
  }

  lemma PipelineExactly(ts: seq<MainTask>, existing: seq<MainTask>, autoDelete: bool, next: NextOccurrence)
    returns (at: seq<nat>)
    requires IdsDiffer(existing) && Pipeline(ts, existing, autoDelete, next).Some?
    ensures StoresExactly(ts, Pipeline(ts, existing, autoDelete, next).value, at, existing, autoDelete, next)
  {
    var us := AdvanceAll(ts, existing, next).value;
    AdvancedExactly(ts, existing, next);
    if autoDelete {
      at := AutoDeletedInOrder(us);
    } else {
      at := seq(|ts|, i requires 0 <= i < |ts| => i);
      forall k | 0 <= k < |ts| ensures k in at { assert at[k] == k; }
    }
    forall i | 0 <= i < |at|
      ensures var u, v := us[at[i]], Pipeline(ts, existing, autoDelete, next).value[i];
        v == if autoDelete then Trim(u) else u
    {}
  }

  /** Auto-delete keeps exactly the undone subtasks of a task, in order, and nothing else of it changes. */
  lemma TrimExactly(t: MainTask) returns (at: seq<nat>)
    ensures Trim(t) == t.(subTasks := Trim(t).subTasks) && |at| == |Trim(t).subTasks|
    ensures forall i, j | 0 <= i < j < |at| :: at[i] < at[j]
    ensures forall i | 0 <= i < |at| :: at[i] < |t.subTasks| && Trim(t).subTasks[i] == t.subTasks[at[i]]
    ensures forall k | 0 <= k < |t.subTasks| :: k in at <==> !t.subTasks[k].isDone
  {
    at := FilterSubsequence(t.subTasks, NotDone());
  }

  /** Submitting again what an update stored, with the same flag, stores the same tasks: no task
      advances twice, and nothing more is deleted. */
  lemma ResubmitIsFixpoint(ts: seq<MainTask>, existing: seq<MainTask>, autoDelete: bool, next: NextOccurrence)
    requires Pipeline(ts, existing, autoDelete, next).Some?
    requires var out := Pipeline(ts, existing, autoDelete, next).value;
      forall j, k | 0 <= j < k < |out| :: out[j].id != out[k].id
    ensures var out := Pipeline(ts, existing, autoDelete, next).value; Pipeline(out, out, autoDelete, next) == Some(out)
  {
    var out := Pipeline(ts, existing, autoDelete, next).value;
    forall i | 0 <= i < |out| ensures Advance(out[i], out, next) == Some(out[i]) { LookupLast(out, i); }
    AdvanceAllAt(out, out, next);
    assert AdvanceAll(out, out, next).value == out;
    if autoDelete { AutoDeletedIdempotent(AdvanceAll(ts, existing, next).value); }
  }
}
