/** Why each task list request, served without faults, changes the model as it should, and what it does to
    the shape of due dates. */
module ListSteps {
  import opened Strings
  import opened Rows
  import opened Paths
  import opened NotePaths
  import opened Disk
  import opened Dates
  import opened TaskTree
  import opened TaskRoundTrip
  import opened TaskStore
  import opened TaskForest
  import opened TaskUpdate
  import N = Notes
  import opened NoteStore
  import L = TaskLists
  import U = Upcoming
  import D = Database
  import opened ServiceModel
  import opened ServiceSteps

  // ---- Ids in the tables and in the model ----

  /** A list's tree has exactly the ids of the rows selected for the list. */
  lemma HasIdIff(listIds: set<string>, tasks: map<string, TaskRow>, l: string, tree: seq<MainTask>, id: string)
    requires Forest(listIds, tasks) && Stored(tasks, l, tree)
    ensures HasId(l, tree, id) <==> id in tasks && Selected(tasks, l, tasks[id])
  {
    if HasId(l, tree, id) {
      var r :| r in TreeRows(l, tree) && r.id == id;
      assert r in SelectedRows(tasks, l);
    }
    if id in tasks && Selected(tasks, l, tasks[id]) {
      assert RowOk(listIds, tasks, id);
      assert tasks[id] in SelectedRows(tasks, l);
    }
  }

  /** Every task belongs to some list. */
  lemma SelectedForSome(listIds: set<string>, tasks: map<string, TaskRow>, id: string) returns (l: string)
    requires Forest(listIds, tasks) && id in tasks
    ensures l in listIds && Selected(tasks, l, tasks[id])
  {
    assert RowOk(listIds, tasks, id);
    if tasks[id].listId.Some? {
      l := tasks[id].listId.value;
    } else {
      assert RowOk(listIds, tasks, tasks[id].parentId.value);
      l := tasks[tasks[id].parentId.value].listId.value;
    }
  }

  lemma DrawsFreshIff(lists: map<string, ListRow>, tasks: map<string, TaskRow>, trees: L.Trees, newIds: L.NewIds)
    requires L.Holds(lists, tasks, trees)
    ensures DrawsFresh(Infos(lists, trees), newIds) <==> L.NeverDrawn(newIds, tasks)
  {
    var infos := Infos(lists, trees);
    forall k: nat | newIds(k) in tasks ensures exists l :: l in infos && HasId(l, infos[l].tasks, newIds(k)) {
      var l := SelectedForSome(lists.Keys, tasks, newIds(k));
      HasIdIff(lists.Keys, tasks, l, trees[l], newIds(k));
      assert infos[l].tasks == trees[l];
    }
    if L.NeverDrawn(newIds, tasks) {
      forall k: nat, l | l in infos ensures !HasId(l, infos[l].tasks, newIds(k)) {
        assert newIds(k) !in tasks;
        HasIdIff(lists.Keys, tasks, l, trees[l], newIds(k));
      }
    }
  }

  /** A row's id is free for list `l` exactly if no other list has it. */
  lemma FreeForIff(lists: map<string, ListRow>, tasks: map<string, TaskRow>, trees: L.Trees, l: string, id: string)
    requires L.Holds(lists, tasks, trees) && l in lists
    ensures (id in tasks ==> Selected(tasks, l, tasks[id]))
       <==> forall other | other in trees && other != l :: !HasId(other, trees[other], id)
  {
    if id in tasks && Selected(tasks, l, tasks[id]) {
      OneOwner(lists.Keys, tasks, id, l);
    }
    forall other | other in trees && other != l
      ensures HasId(other, trees[other], id) <==> id in tasks && Selected(tasks, other, tasks[id])
    {
      HasIdIff(lists.Keys, tasks, other, trees[other], id);
    }
    if id in tasks { var owner := SelectedForSome(lists.Keys, tasks, id); }
  }

  /** The database takes a prepared tree exactly if its ids fit. */
  lemma StorableIff(lists: map<string, ListRow>, tasks: map<string, TaskRow>, trees: L.Trees, l: string,
                    prepared: Option<seq<MainTask>>)
    requires L.Holds(lists, tasks, trees) && l in lists
    ensures L.Fits(lists.Keys, tasks, l, prepared) <==> Storable(Infos(lists, trees), l, prepared)
  {
    if prepared.Some? {
      var infos, rows := Infos(lists, trees), TreeRows(l, prepared.value);
      ReplaceTreeIff(lists.Keys, tasks, l, prepared.value);
      forall r | r in rows
        ensures (r.id in tasks ==> Selected(tasks, l, tasks[r.id]))
           <==> forall other | other in infos && other != l :: !HasId(other, infos[other].tasks, r.id)
      {
        FreeForIff(lists, tasks, trees, l, r.id);
        InfosTrees(lists, trees);
      }
    }
  }

  lemma InfosTrees(lists: map<string, ListRow>, trees: L.Trees)
    requires trees.Keys == lists.Keys
    ensures Infos(lists, trees).Keys == trees.Keys && forall l | l in trees :: Infos(lists, trees)[l].tasks == trees[l]
  {}

  // ---- Steps ----

  lemma InfosPut(lists: map<string, ListRow>, trees: L.Trees, row: ListRow, tree: seq<MainTask>)
    ensures Infos(lists[row.id := row], trees[row.id := tree])
        == Infos(lists, trees)[row.id := Info(row.parentDir, row.title, row.isAutoDelete, tree)]
  {}

  lemma InfosDrop(lists: map<string, ListRow>, trees: L.Trees, id: string)
    ensures Infos(lists - {id}, trees - {id}) == Infos(lists, trees) - {id}
  {}

  /** The parts of the state that the list handlers leave alone. */
  ghost predicate SameStores(s: State, s': State) { s'.notes == s.notes && s'.files == s.files && s'.dirs == s.dirs }

  lemma PutDirs(lists: map<string, ListRow>, row: ListRow, dirs: set<Path>)
    requires ListDirsExist(lists, dirs) && Accepted(row.parentDir) && Components(row.parentDir) in dirs
    ensures ListDirsExist(lists[row.id := row], dirs)
  {}

  /** What `CreateTaskList` leaves, without faults: this list with these ids filled in, or nothing new. */
  ghost predicate ListAdded(created: bool, s: State, q: Request, now: int, s': State, valid: L.ValidRule)
    requires q.ListCreate?
  {
    && SameStores(s, s') && L.Holds(s'.lists, s'.tasks, s'.trees)
    && (created ==> MayCreateList(Infos(s.lists, s.trees), s.dirs, q, valid))
    && (MayCreateList(Infos(s.lists, s.trees), s.dirs, q, valid) && L.NeverDrawn(q.newIds, s.tasks) ==> created)
    && if created then
         && q.id in s'.trees && L.AllIdsFilled(L.ClearAllIds(q.tasks), s'.trees[q.id])
         && s'.lists == s.lists[q.id := ListRow(q.id, q.title, q.parentDir, q.isAutoDelete, now, now)]
         && s'.trees == s.trees[q.id := s'.trees[q.id]]
       else s' == s
  }

  lemma ListCreateStep(created: bool, s: State, q: Request, now: int, s': State, e: Engine)
    requires Good(s) && q.ListCreate? && ListAdded(created, s, q, now, s', e.valid)
    ensures Answers(s, q, s', e)
  {
    DrawsFreshIff(s.lists, s.tasks, s.trees, q.newIds);
    if created {
      var row, tree := ListRow(q.id, q.title, q.parentDir, q.isAutoDelete, now, now), s'.trees[q.id];
      PutDirs(s.lists, row, s.dirs);
      ListAddedFollows(Shown(s), q, row, tree, e);
      ListPutStep(s, q, s', row, tree, e);
    } else {
      ListNotAdded(Shown(s), q, e);
    }
  }

  lemma ListNotAdded(m: Model, q: Request, e: Engine)
    requires q.ListCreate? && (MayCreateList(m.lists, m.dirs, q, e.valid) ==> !DrawsFresh(m.lists, q.newIds))
    ensures Step(m, q, m, e)
  {}

  lemma ListAddedFollows(m: Model, q: Request, row: ListRow, tree: seq<MainTask>, e: Engine)
    requires q.ListCreate? && MayCreateList(m.lists, m.dirs, q, e.valid) && L.AllIdsFilled(L.ClearAllIds(q.tasks), tree)
    requires row.id == q.id && row.title == q.title && row.parentDir == q.parentDir
    requires row.isAutoDelete == q.isAutoDelete
    ensures Step(m, q, m.(lists := m.lists[row.id := Info(row.parentDir, row.title, row.isAutoDelete, tree)]), e)
  {}

  /** What `UpdateTaskList` leaves, without faults: this list with the prepared tasks, or nothing new. */
  ghost predicate ListChanged(changed: bool, s: State, q: Request, now: int, filled: seq<MainTask>, s': State,
                              e: Engine)
    requires q.ListUpdate?
  {
    && SameStores(s, s') && L.Holds(s'.lists, s'.tasks, s'.trees)
    && (changed ==> MayUpdateList(Infos(s.lists, s.trees), q, e.valid))
    && (MayUpdateList(Infos(s.lists, s.trees), q, e.valid) ==>
          && L.AllIdsFilled(q.tasks, filled) && q.id in s.trees
          && var prepared := Pipeline(filled, s.trees[q.id], q.isAutoDelete, e.next);
          (changed <==> L.Fits(s.lists.Keys, s.tasks, q.id, prepared)))
    && if changed then
         && q.id in s.trees && q.id in s.lists && q.id in s'.trees
         && Pipeline(filled, s.trees[q.id], q.isAutoDelete, e.next) == Some(s'.trees[q.id])
         && s'.trees == s.trees[q.id := s'.trees[q.id]]
         && var row := s.lists[q.id].(title := q.title, isAutoDelete := q.isAutoDelete, updatedAt := now);
         s'.lists == s.lists[q.id := row]
       else s' == s
  }

  /** `ListChanged` from what the handler's contract says, one clause at a time. */
  lemma ChangedList(changed: bool, s: State, q: Request, now: int, filled: seq<MainTask>, tree: seq<MainTask>,
                    s': State, e: Engine)
    requires q.ListUpdate? && SameStores(s, s') && L.Holds(s.lists, s.tasks, s.trees)
    requires L.AcceptsUpdate(q.id, q.title, q.tasks, e.valid) ==> L.AllIdsFilled(q.tasks, filled)
    requires L.AcceptsUpdate(q.id, q.title, q.tasks, e.valid) && q.id in s.trees ==>
      (changed <==> L.Fits(s.lists.Keys, s.tasks, q.id, Pipeline(filled, s.trees[q.id], q.isAutoDelete, e.next)))
    requires changed ==> L.AcceptsUpdate(q.id, q.title, q.tasks, e.valid) && q.id in s.trees
    requires changed ==> Pipeline(filled, s.trees[q.id], q.isAutoDelete, e.next) == Some(tree)
    requires changed ==> L.Holds(s'.lists, s'.tasks, s'.trees) && s'.trees == s.trees[q.id := tree]
    requires changed ==>
      s'.lists == s.lists[q.id := s.lists[q.id].(title := q.title, isAutoDelete := q.isAutoDelete, updatedAt := now)]
    requires !changed ==> s' == s
    ensures ListChanged(changed, s, q, now, filled, s', e)
  {
    InfosTrees(s.lists, s.trees);
  }

  lemma ListUpdateStep(changed: bool, s: State, q: Request, now: int, filled: seq<MainTask>, s': State, e: Engine)
    requires Good(s) && q.ListUpdate? && ListChanged(changed, s, q, now, filled, s', e)
    ensures Answers(s, q, s', e)
  {
    InfosTrees(s.lists, s.trees);
    if MayUpdateList(Infos(s.lists, s.trees), q, e.valid) {
      StorableIff(s.lists, s.tasks, s.trees, q.id, Pipeline(filled, s.trees[q.id], q.isAutoDelete, e.next));
      if changed {
        var tree := s'.trees[q.id];
        var row := s.lists[q.id].(title := q.title, isAutoDelete := q.isAutoDelete, updatedAt := now);
        assert row.id == q.id;
        PutDirs(s.lists, row, s.dirs);
        ListChangedFollows(Shown(s), q, row, filled, tree, e);
        ListPutStep(s, q, s', row, tree, e);
      } else {
        ListNotChanged(Shown(s), q, filled, e);
      }
    } else {
      ListRefused(Shown(s), q, e);
    }
  }

  lemma ListRefused(m: Model, q: Request, e: Engine)
    requires q.ListUpdate? && !MayUpdateList(m.lists, q, e.valid)
    ensures Step(m, q, m, e)
  {}

  lemma ListNotChanged(m: Model, q: Request, filled: seq<MainTask>, e: Engine)
    requires q.ListUpdate? && MayUpdateList(m.lists, q, e.valid) && L.AllIdsFilled(q.tasks, filled)
    requires !Storable(m.lists, q.id, Pipeline(filled, m.lists[q.id].tasks, q.isAutoDelete, e.next))
    ensures Step(m, q, m, e)
  {
    assert ListReplaced(m.lists, q, filled, m.lists, e);
  }

  lemma ListChangedFollows(m: Model, q: Request, row: ListRow, filled: seq<MainTask>, tree: seq<MainTask>, e: Engine)
    requires q.ListUpdate? && MayUpdateList(m.lists, q, e.valid) && L.AllIdsFilled(q.tasks, filled)
    requires Pipeline(filled, m.lists[q.id].tasks, q.isAutoDelete, e.next) == Some(tree)
    requires Storable(m.lists, q.id, Some(tree))
    requires row.id == q.id && row.title == q.title && row.parentDir == m.lists[q.id].parentDir
    requires row.isAutoDelete == q.isAutoDelete
    ensures Step(m, q, m.(lists := m.lists[row.id := Info(row.parentDir, row.title, row.isAutoDelete, tree)]), e)
  {
    var info := Info(row.parentDir, row.title, row.isAutoDelete, tree);
    assert ListReplaced(m.lists, q, filled, m.lists[row.id := info], e);
  }

  lemma ListPutShown(s: State, s': State, row: ListRow, tree: seq<MainTask>)
    requires SameStores(s, s') && s'.lists == s.lists[row.id := row] && s'.trees == s.trees[row.id := tree]
    ensures Shown(s')
        == Shown(s).(lists := Infos(s.lists, s.trees)[row.id := Info(row.parentDir, row.title, row.isAutoDelete, tree)])
  {
    InfosPut(s.lists, s.trees, row, tree);
  }

  lemma ListPutStep(s: State, q: Request, s': State, row: ListRow, tree: seq<MainTask>, e: Engine)
    requires Good(s) && SameStores(s, s') && ListsPart(s'.lists, s'.tasks, s'.trees, s'.dirs)
    requires s'.lists == s.lists[row.id := row] && s'.trees == s.trees[row.id := tree]
    requires var info := Info(row.parentDir, row.title, row.isAutoDelete, tree);
      Step(Shown(s), q, Shown(s).(lists := Infos(s.lists, s.trees)[row.id := info]), e)
    ensures Answers(s, q, s', e)
  {
    ListPutShown(s, s', row, tree);
    PartsGood(s');
  }

  /** The lists after a delete. */
  ghost predicate ListRemoved(s: State, id: string, s': State) {
    if IsUuidV4(id) && id in s.trees then s'.lists == s.lists - {id} && s'.trees == s.trees - {id}
    else s'.lists == s.lists && s'.trees == s.trees
  }

  lemma ListRemovedShown(s: State, q: Request, s': State, e: Engine)
    requires SameStores(s, s') && q.ListDelete? && ListRemoved(s, q.id, s')
    ensures Step(Shown(s), q, Shown(s'), e)
  {
    InfosDrop(s.lists, s.trees, q.id);
    assert q.id !in s.trees ==> Infos(s.lists, s.trees) - {q.id} == Infos(s.lists, s.trees);
  }

  lemma FewerLists(lists: map<string, ListRow>, lists': map<string, ListRow>, dirs: set<Path>)
    requires ListDirsExist(lists, dirs) && forall l | l in lists' :: l in lists && lists'[l] == lists[l]
    ensures ListDirsExist(lists', dirs)
  {}

  lemma ListDeleteStep(s: State, q: Request, s': State, e: Engine)
    requires Good(s) && SameStores(s, s') && q.ListDelete? && ListRemoved(s, q.id, s')
    requires L.Holds(s'.lists, s'.tasks, s'.trees)
    ensures Answers(s, q, s', e)
  {
    ListRemovedShown(s, q, s', e);
    FewerLists(s.lists, s'.lists, s.dirs);
    PartsGood(s');
  }

  // ---- Due dates over whole runs ----

  /** Every due date the model shows is the text of a date. */
  ghost predicate DatedModel(m: Model) { forall l | l in m.lists :: AllDated(m.lists[l].tasks) }

  /** Every due date the model shows has the shape validation asks for. */
  ghost predicate ShapedModel(m: Model) { forall l | l in m.lists :: AllShaped(m.lists[l].tasks) }

  /** The engine never goes past the year 9999. */
  ghost predicate EndsInTime(next: NextOccurrence) {
    forall rule, i :: next(rule, i).Some? ==> next(rule, i).value.date.year < 10000
  }

  /** A list that a request creates has well-shaped dates. */
  lemma CreatedShaped(m: Model, q: Request, lists': map<string, Info>, e: Engine)
    requires q.ListCreate? && ListCreated(m, q, lists', e)
    ensures lists' == m.lists || exists info :: lists' == m.lists[q.id := info] && AllShaped(info.tasks)
  {
    if lists' != m.lists {
      var tree :| L.AllIdsFilled(L.ClearAllIds(q.tasks), tree)
        && lists' == m.lists[q.id := Info(q.parentDir, q.title, q.isAutoDelete, tree)];
      L.NewTasksValid(q.tasks, tree, e.valid);
      assert AllShaped(Info(q.parentDir, q.title, q.isAutoDelete, tree).tasks);
    }
  }

  /** A list that a request updates has texts of dates, and well-shaped ones if the engine ends in time. */
  lemma UpdatedDates(lists: map<string, Info>, q: Request, lists': map<string, Info>, e: Engine)
    requires q.ListUpdate? && ListUpdated(lists, q, lists', e) && StrictlyLater(e.next)
    ensures lists' == lists || exists info ::
      lists' == lists[q.id := info] && AllDated(info.tasks) && (EndsInTime(e.next) ==> AllShaped(info.tasks))
  {
    if lists' != lists {
      var filled :| L.AllIdsFilled(q.tasks, filled) && ListReplaced(lists, q, filled, lists', e);
      var existing := lists[q.id].tasks;
      var tree := Pipeline(filled, existing, q.isAutoDelete, e.next).value;
      L.FilledValid(q.tasks, filled, e.valid);
      L.PreparedDates(filled, existing, q.isAutoDelete, e.next, e.valid);
      InTimeStaysBelow(filled, existing, q.isAutoDelete, e.next);
      var info := Info(lists[q.id].parentDir, q.title, q.isAutoDelete, tree);
      assert lists' == lists[q.id := info];
    }
  }

  lemma InTimeStaysBelow(ts: seq<MainTask>, existing: seq<MainTask>, autoDelete: bool, next: NextOccurrence)
    requires Pipeline(ts, existing, autoDelete, next).Some?
    ensures EndsInTime(next) ==> forall t | t in ts :: StaysBelow(t, existing, next)
  {
    AdvanceAllAt(ts, existing, next);
    if EndsInTime(next) {
      forall t | t in ts ensures StaysBelow(t, existing, next) {
        var i :| 0 <= i < |ts| && ts[i] == t;
        assert Advance(ts[i], existing, next).Some?;
      }
    }
  }

  /** Requests other than creating and updating lists change no tree. */
  lemma OtherTrees(m: Model, q: Request)
    requires !q.ListCreate? && !q.ListUpdate?
    ensures var lists' := ListsAfter(m.lists, m.notes, m.dirs, q);
      forall l | l in lists' :: l in m.lists && lists'[l].tasks == m.lists[l].tasks
  {}

  /** Every request keeps dates dated, and well-shaped as long as the engine ends in time. */
  lemma StepDates(m: Model, q: Request, m': Model, e: Engine)
    requires Step(m, q, m', e) && StrictlyLater(e.next)
    ensures DatedModel(m) ==> DatedModel(m')
    ensures EndsInTime(e.next) && ShapedModel(m) ==> ShapedModel(m')
  {
    if q.ListCreate? {
      CreatedShaped(m, q, m'.lists, e);
      if m'.lists != m.lists {
        var info :| m'.lists == m.lists[q.id := info] && AllShaped(info.tasks);
        ShapedAreDated(info.tasks);
      }
    } else if q.ListUpdate? {
      UpdatedDates(m.lists, q, m'.lists, e);
    } else {
      OtherTrees(m, q);
    }
  }

  /** In a good state whose model shows dated lists, the stored trees are dated. */
  lemma ShownDates(s: State)
    requires Good(s)
    ensures DatedModel(Shown(s)) <==> U.DatedTrees(s.trees)
    ensures ShapedModel(Shown(s)) <==> U.ShapedTrees(s.trees)
  {
    InfosTrees(s.lists, s.trees);
  }
}
