# Echolist backend: a verified model

Echolist keeps notes and task lists in two stores at once. A note is a row in SQLite and a Markdown file
whose name is computed from the row; a task list is a row with a tree of tasks flattened into a third
table; a folder is a directory on disk and a prefix of the `parent_dir` column. This project models the
code that keeps those parts together and proves what it keeps:

* **The per-path lock manager** (`LockProtocol`, `LockSafety`, `LockProgress`, `PathLock`) is a protocol of
  any number of threads, interleaved step by step, over entries that have identity and are deleted and
  created again. The invariant ties every waiting, holding or leaving thread to the entry in the map. The
  class `Locker` is proved to take exactly the protocol's steps.
* **Nested tasks as rows** (`Rows`, `TaskTree`, `TaskRoundTrip`, `TaskStore`, `TaskForest`) are flattened,
  inserted under primary and foreign keys, cascaded, read back through an ORDER BY that promises no more
  than "some listing sorted by these keys", and regrouped.
* **The update pipeline** (`TaskUpdate`, `TaskLists`, `Dates`) fills in ids, advances completed recurring
  tasks, drops what auto-delete drops, and replaces the stored tree in one transaction.
* **Due dates** (`Dates`, `DateOrder`, `Upcoming`): their text, when comparing texts is comparing dates, what
  shape stored dates can have, and the list of upcoming tasks that is sorted by them.
* **Paths** (`Strings`, `Paths`, `NotePaths`) are cleaned, joined and validated on component lists.
* **Folders** (`Like`, `DirRename`, `FolderStore`, `Folders`, `Listings`): a LIKE matcher with escaping, two
  UPDATE passes against one simultaneous substitution, and both against the move of the subtree on disk.
* **Notes** (`Disk`, `Notes`, `NoteStore`): handlers as sequences of fallible disk and database steps with
  rollbacks. Every call may fail on a faulty disk or database, and the disk's ghost `history` records the
  files after every call, so that a property of `history` holds wherever the process may stop.
* **Whole runs** (`ServiceModel`, `ServiceSteps`, `ListSteps`, `Service`): any sequence of requests, served
  without faults, refines one simple model of notes, lists and directories. `FaultyRuns` serves any sequence
  under any faults and names the answers after which a row is without its file (`Loses`).
* **Migrations** (`Schema`) over any number of restarts and failures.

Faults are modelled by a constant `faulty` in `Disk`, `Database` and `Store` (`Faults`): a faulty store may fail any
call, a sound one fails only for the reasons the code gives. A contract without `!faulty` holds under every
fault. Transactions roll back as a whole. The random ids of `uuid.NewString`, the clock, and the recurrence
engine are parameters; of the engine only "strictly later, or none" is assumed (section 3.3.10 of RFC 5545).

Strings are sequences of Unicode characters; byte lengths are computed by UTF-8 widths where the code counts
bytes, and comparing characters is comparing bytes. The disk is a map from component lists, relative to the
data directory, to contents.

## Where the code does not do what it is for

Each of these is a property that fails, with the exact condition under which it holds:

* LIKE ignores ASCII case and `SUBSTR` counts characters where `len` counts bytes, so a folder rename also
  drags along a sibling that differs only by case, and cuts names after a multi-byte character
  (`CaseVariantMoves`, `MultiByteTruncates`). The rename is right on precisely the directories `Exact`
  admits: those LIKE does not select, and those it selects that lie, in that very spelling, below the old or
  the new path, the old path being ASCII (`TwoPassIff`). Every row keeps its file precisely when all rows
  are admitted (`RenameKeepsFilesIff`), and the lists are moved right precisely when all lists are
  (`RenamedListsIff`). Renaming back restores precisely the directories `Restored` names (`TwoPassBackIff`).
* A folder delete also removes the rows of case variants: notes, whose files stay behind, and task lists with
  all their tasks (`CaseVariantDeleted`), precisely when there is a case variant (`DeleteExactIff`,
  `DeletedListsIff`). No row ever loses its file, under any fault (`DeleteKeepsFiles`).
* Taken together: a folder request served without faults does what it should to notes, lists and directories
  if and only if it is refused or LIKE tells the stored directories apart (`FolderRenameIff`,
  `FolderDeleteIff`); this can be checked before the request is served.
* `UpdateNote` does not rename back when the stat after the write fails; the row's file is elsewhere after
  exactly the replies `LeavesFileAway` names. When the row update fails, the rollback restores the name but
  not the content (contract of `UpdateRow`).
* `CreateExclusive` leaves its empty sentinel when the final rename fails (`SentinelLeft`).
* `DeleteNote` leaves a row without a file exactly when the database fails after the file is gone.
* A folder rename whose rollback on disk fails leaves exactly the notes in and below the folder without their
  files (`LeftBehind`).
* "." is accepted as a second name of the root; a listing asked for under it shows wrong child counts for
  exactly the folders with rows directly in them (`ChildCountIff`).
* Due dates are compared as texts, and an update can move a task from 9999 into the year 10000, whose text
  sorts before (`AdvancesIntoYearTenThousand`). Two dates compare right precisely if their years are written
  with equally many digits or the shorter year is at most the number the longer one begins with
  (`TextOrderIff`), and the list of upcoming tasks is in date order precisely if that holds for all years in it
  (`UpcomingOrderIff`). An update keeps dates in the accepted shape precisely if no task moves on past the year
  9999 (`PipelineShapedIff`); otherwise validation refuses what the update answered (`ResubmitValidIff`).
* Completing a task with an hourly rule leaves its date as it is (`HourlyStays`). In general the date never
  goes back, and it stays precisely if the next occurrence is on the same day (`AdvanceMovesForward`).
* Without the sort in `LockMany` two calls can deadlock (`UnsortedDeadlocks`).

## Model

| member | source | states |
|---|---|---|
| `LockSafety.MutualExclusion` | common/pathlock.go:21-46 | In every reachable interleaving of any number of threads, no two threads hold the lock for the same path, although entries are deleted and created again |
| `LockSafety.WaitsExactlyForHolder` | common/pathlock.go:26-46 | A waiter can go on exactly when nobody holds its path: it never waits on an entry that was deleted and replaced |
| `LockSafety.StepKeeps` | common/pathlock.go:21-75 | Every step of every thread keeps the invariant: each waiting, holding or leaving thread's entry is the one in the map, `waiters` is the number of such threads, distinct paths have distinct entries |
| `LockSafety.RunKeeps` | common/pathlock.go:21-75 | The invariant holds after every run |
| `LockSafety.UnlocksAfterAll` | common/pathlock.go:52-75 | A call starts to unlock only where it holds every path it asked for, and no other call holds any of them |
| `LockProgress.DeadlockFree` | common/pathlock.go:48-75 | No reachable state with an unfinished call is stuck |
| `LockProgress.EveryRunEnds` | common/pathlock.go:21-75 | Without new calls a run takes at most the remaining work of all threads; it is stuck exactly when it took all of it, and then every call has returned and the lock map is empty |
| `LockProgress.UnsortedDeadlocks` | common/pathlock.go:63 | Without the sort, two calls for the same two paths reach a state where neither is finished and neither can move |
| `PathLock.Locker.Register` | common/pathlock.go:22-32 | The first block of `Lock` is the protocol's registering step, on the mutable map and entries |
| `PathLock.Locker.Acquire` | common/pathlock.go:34 | Acquiring an entry's free mutex is the protocol's acquiring step |
| `PathLock.Locker.Release` | common/pathlock.go:37 | Unlocking an entry's mutex is the protocol's releasing step |
| `PathLock.Locker.Unregister` | common/pathlock.go:39-44 | The last block of the unlock closure, with its deletion, is the protocol's unregistering step |
| `PathLock.LockOrder` | common/pathlock.go:52-68 | `LockMany` locks each given path once, in increasing order, which the protocol accepts |
| `Strings.SplitAtSlash` | common/pathutil.go:63 | A slash between two strings is a cut between their component lists |
| `Strings.SplitJoin` | common/pathutil.go:63 | Splitting a join of slash-free components gives the components back |
| `Strings.JoinSplit` | common/pathutil.go:63 | Joining a split gives the string back |
| `Strings.LessIff` | common/pathlock.go:63 | The order of strings: a proper prefix, or smaller at the first difference |
| `Strings.ByteLenConcat` | common/pathutil.go:194-200 | Byte lengths add up over a concatenation, down to single characters |
| `Paths.AcceptedIff` | common/pathutil.go:46-69 | `rejectBadRelativePath` accepts exactly "", "." and the joins of components that are not empty, "." or ".." and contain no slash, backslash or NUL |
| `Paths.AcceptedComponents` | common/pathutil.go:46-69 | A path is accepted exactly if it names the root, or none of its components is empty, "." or "..", or contains a backslash or NUL |
| `Paths.RejectedBecause` | common/pathutil.go:46-69 | Which of its reasons `rejectBadRelativePath` gives: the first that applies; a clean relative path is refused for ".." exactly if it begins with it |
| `Paths.ValidNameIff` | common/pathutil.go:162-179 | The two validations agree: a name is valid exactly if it is an accepted path of one component and has at most 255 bytes |
| `Paths.CleanRules` | common/pathutil.go:63 | How `Clean` rewrites: empty components and "." go, a component and the ".." after it cancel, and ".." at a root goes |
| `Paths.CleanIsClean` | common/pathutil.go:63 | `Clean` makes a clean path of any path, in which ".." stands only where a relative path begins, and changes no clean path |
| `Paths.ComponentsInjective` | common/pathutil.go:46-69 | Two accepted paths name the same directory only if they are equal or are the two names of the root |
| `Paths.JoinDataDir` | common/pathutil.go:129 | Joining an accepted path to the data directory, absolute or relative, appends its components |
| `Paths.IsSubPathIff` | common/pathutil.go:22-36 | `IsSubPath` means strictly below, for absolute and relative paths alike: the base's names, at least one more, and no way back up |
| `Paths.ResolveSymlinks` | common/pathutil.go:81-112 | The ancestor loop ends and computes `Resolved`, which `DeepestAncestor` describes |
| `Paths.DeepestAncestor` | common/pathutil.go:69-112 | The deepest ancestor that exists decides: nothing longer exists, and the result is that ancestor, resolved, with the missing components joined to it; otherwise there is an error |
| `Paths.AppendTail` | common/pathutil.go:108-110 | The missing components, collected from the right, are put back in order |
| `Paths.ValidatedStaysInside` | common/pathutil.go:121-149 | Whatever the symlinks on disk do and whatever the data directory is called, the path validation returns begins with the data directory's names and never goes back up from there; it is the data directory itself only where the root is allowed |
| `Paths.ValidatedIff` | common/pathutil.go:121-149 | A path is valid exactly when it is accepted, can be resolved, and resolves to below the data directory, or to it where the root is allowed |
| `Paths.ValidWithoutSymlinks` | common/pathutil.go:121-149 | Without symlinks a path is valid exactly when it is accepted and names the root only where the root is allowed |
| `NotePaths.NotePathRoundTrip` | notes/note_path.go:6-12 | Directory, title and id can be read back from a note's path, whatever "_", "." or ".md" the title contains |
| `NotePaths.UuidIff` | common/uuid.go:10-21 | `ValidateUuidV4` accepts exactly the texts of the five groups, with version and variant, in lower case |
| `NotePaths.NotePathKey` | notes/update_note.go:53-59 | Joining a note's path to the data directory gives the directory's components and the file name: title, "_", id, ".md" |
| `NotePaths.NoteKeyInjective` | notes/note_path.go:6-12 | Two notes share a file only if id, title and directory are the same, up to the two names of the root |
| `Like.EscapeLike` | database/folders.go:111-121 | The byte loop computes the escaped string |
| `Like.EscapedPrefixIff` | database/folders.go:31-45 | The escaped prefix followed by "%" matches exactly the strings that begin with the prefix, up to the matcher's equality, for every prefix and every equality |
| `Like.LikeRules` | database/folders.go:31-45 | What the wildcards of LIKE mean: "%" skips any number of characters, "_" exactly one, and an escaped character stands for itself |
| `Like.FoldEqIff` | database/folders.go:31-45 | Two characters are equal to LIKE exactly if they are equal or the two cases of one letter from A to Z |
| `Like.SelectsIff` | database/folders.go:31-45 | A prefix selects exactly the directories that begin with it, position by position equal or the two cases of one letter from A to Z |
| `DirRename.SiblingComponents` | file/update_folder.go:62-70 | The new relative path is the old one with its last component replaced, and is accepted |
| `DirRename.UnderIff` | database/folders.go:31-45 | Lying below a folder as a string is lying below it as a component list |
| `DirRename.SubstMoves` | file/update_folder.go:56-72 | The substitution on stored directories is the move of the subtree on disk |
| `DirRename.RenamedNotSelected` | database/folders.go:65-102 | The first UPDATE pass never feeds the second |
| `DirRename.TwoPassIff` | database/folders.go:65-102 | The two UPDATE passes equal the simultaneous substitution on exactly the directories `Exact` admits |
| `DirRename.TwoPassExactly` | database/folders.go:65-102 | What the two passes make of any stored directory, those that LIKE and SUBSTR get wrong included |
| `DirRename.CaseVariantMoves` | database/folders.go:79-83 | A folder that differs from the renamed one only by case is moved too |
| `DirRename.MultiByteTruncates` | database/folders.go:79-83 | With a multi-byte character in the old path the names below it are cut |
| `DirRename.RenameBack` | database/folders.go:65-102 | What the passes stand for: substituting there and back restores a directory exactly when it lay below the old path or did not lie below the new one |
| `DirRename.TwoPassBackIff` | database/folders.go:65-102 | Two passes there and two passes back restore a directory exactly if it is the renamed one, or lies below it in that very spelling while both paths are ASCII, or LIKE selects it neither way |
| `OrderBy.Select` | database/helpers.go:58-95 | A listing of the selected rows, each once, sorted by the keys; nothing more is assumed of the engine |
| `TaskTree.FlattenMain` | database/helpers.go:23-54 | A main task is stored as its row followed by its subtasks' rows at positions 0, 1, ... |
| `TaskTree.TreeRowsIff` | database/helpers.go:23-54 | The rows of a tree are exactly its main tasks' and its subtasks' rows |
| `TaskTree.QueryOrder` | database/helpers.go:58-71 | A query result has the main tasks first, by position, then the subtasks, by parent and position |
| `TaskTree.CollectMains` | tasks/task_server.go:99-121 | The first pass lists the main tasks in order and indexes the last one with each id |
| `TaskTree.TaskRowsToMainTasks` | tasks/task_server.go:99-138 | The two passes attach to each main task, in order, the rows that name it as their parent |
| `TaskRoundTrip.PositionOrderUnique` | database/helpers.go:58-68 | Rows at consecutive positions have exactly one listing in position order |
| `TaskRoundTrip.ReadBack` | database/helpers.go:23-95 | Reading back a stored tree gives the identical tree, order, subtasks and empty fields included, for every result the ORDER BY allows |
| `TaskRoundTrip.StoredUnique` | database/helpers.go:23-95 | A table holds at most one tree for a list |
| `TaskStore.InsertAllIff` | database/helpers.go:23-54 | Rows whose references come first are refused only for an id that is taken or repeated; otherwise exactly they are added |
| `TaskStore.ReferencesIff` | database/schema.go:22-31 | Rows with new ids are refused exactly if one refers to a missing list, or to a parent neither there nor inserted before it |
| `TaskStore.FlattenReferences` | database/helpers.go:23-54 | A parent is inserted before its subtasks, at any depth |
| `TaskStore.WithoutKeepsForest` | database/task_lists.go:100-112 | Removing what a set of lists owns keeps the two-level forest |
| `TaskStore.CascadeDeletesOwned` | database/schema.go:22-31 | The cascades of deleted lists remove exactly their main tasks and those tasks' subtasks |
| `TaskStore.CascadeKeepsMost` | database/schema.go:24-25 | The cascade keeps the largest part of the table in which every reference exists |
| `TaskStore.CascadeStable` | database/schema.go:22-31 | In a forest nothing is orphaned |
| `TaskForest.InsertTreeIff` | database/task_lists.go:29-38 | A tree is inserted exactly when its ids are distinct and unused |
| `TaskForest.InsertTreeStores` | database/task_lists.go:10-47 | An inserted tree is stored exactly, other lists' rows are untouched, and the forest is kept |
| `TaskForest.ReplaceTreeIff` | database/task_lists.go:75-132 | A replacement succeeds exactly when the new ids are distinct and none belongs to another list's task |
| `TaskForest.ReplaceTreeStores` | database/task_lists.go:75-132 | A successful replacement stores exactly the supplied tree and leaves every other list's rows unchanged |
| `TaskForest.ApplyKeepsForest` | database/task_lists.go:10-146 | Every operation, failed or not, keeps the forest |
| `TaskForest.EveryRunForest` | database/task_lists.go:10-146 | In every state any run of these steps reaches, each task has exactly one of list and parent, parents are main tasks, lists exist, and positions in a group are 0..n-1; the contracts of `Database` say that its methods take these steps |
| `Dates.ParseFormat` | tasks/update_task_list.go:163-175 | Parsing a formatted date gives the date back |
| `Dates.FormatParse` | tasks/update_task_list.go:163-175 | Formatting a parsed date gives the text back |
| `Dates.DaysInMonth` | tasks/update_task_list.go:163 | A month has as many days as lie between its first day and the next month's, counted by day numbers of the Gregorian calendar |
| `Dates.IsDateIff` | tasks/update_task_list.go:163 | A date parses as a day of the calendar exactly if its day number lies before the next month's |
| `Dates.TextOrderIsDateOrder` | database/upcoming_main_tasks.go:16-26 | String order of date-shaped texts is the order of year, month and day |
| `Dates.YearTenThousandSortsFirst` | database/upcoming_main_tasks.go:16-26 | The text of 10000-01-01 sorts before that of 9999-12-31 |
| `DateOrder.TextOrderIff` | database/upcoming_main_tasks.go:16-26 | The texts of two dates of any years compare as the dates do exactly if the years have equally many digits or the shorter is at most what the longer begins with |
| `DateOrder.FourDigitYears` | database/upcoming_main_tasks.go:16-26 | That holds for any two years up to 9999 and for 0999 with 10000, and fails for 9999 with 10000 |
| `DateOrder.DateOfFormat` | tasks/update_task_list.go:174 | A date of any year is read back from its text, so no two dates have the same text |
| `DateOrder.FormatShapedIff` | tasks/update_task_list.go:174 | A formatted date has the shape validation asks for exactly up to the year 9999 |
| `TaskUpdate.AdvanceRecurringTasks` | tasks/update_task_list.go:145-176 | The in-place loop: where the stored ids differ, exactly the tasks that are done, have a rule and are stored open become open on the day of the next occurrence, all others stay as they are, and it fails exactly if some such task has no next date |
| `TaskUpdate.AdvanceExactly` | tasks/update_task_list.go:151-173 | One task: done, with a rule and stored open, it is open again on the next occurrence after its due date, or the update fails; open, without a rule, unknown or done already, it stays |
| `TaskUpdate.LookupLast` | tasks/update_task_list.go:146-149 | Of several stored tasks with one id the last counts |
| `TaskUpdate.FilterAutoDeleted` | tasks/update_task_list.go:182-203 | The nested loops keep the main tasks `Keep` keeps, each with its undone subtasks |
| `TaskUpdate.AdvanceMovesForward` | tasks/update_task_list.go:145-176 | Advancing changes only `isDone` and `dueDate`, only on a completed recurring task, which becomes undone and due on the day of the next occurrence. That day is never before the old one; the text changes exactly if the day does, keeps its shape exactly up to the year 9999, and sorts before the old one exactly between years whose text order is wrong |
| `TaskUpdate.HourlyStays` | tasks/update_task_list.go:145-176 | Under an hourly rule a completed task is due again on the same day |
| `TaskUpdate.AdvancesIntoYearTenThousand` | tasks/update_task_list.go:145-176 | A yearly rule advances a task from 9999-12-31 to 10000-01-01, a text that sorts before and that validation refuses |
| `TaskUpdate.PipelineShapedIff` | tasks/update_task_list.go:73-85 | From well-shaped dates an update stores well-shaped dates if and only if no completed task moves on past the year 9999, auto-delete or not |
| `TaskUpdate.PipelineDated` | tasks/update_task_list.go:73-85 | Whatever the year, an update stores only texts of dates |
| `TaskUpdate.PipelineExactly` | tasks/update_task_list.go:73-85 | What an update stores, task by task: which submitted tasks stay, in order, which move on to their next date, and which subtasks go |
| `TaskUpdate.PipelineNoneIff` | tasks/update_task_list.go:151-171 | An update cannot prepare its tasks exactly if some recurring task that was just done has no next date |
| `TaskUpdate.AutoDeletedExactly` | tasks/update_task_list.go:178-203 | No done non-recurring main task and no done subtask is left, and nothing else is removed |
| `TaskUpdate.AutoDeletedInOrder` | tasks/update_task_list.go:178-203 | The result is an order-preserving subsequence, and exactly the tasks that should go are skipped |
| `TaskUpdate.TrimExactly` | tasks/update_task_list.go:189-199 | A main task that stays keeps exactly its undone subtasks, in order, and all its fields |
| `TaskUpdate.AutoDeletedIdempotent` | tasks/update_task_list.go:178-203 | Filtering twice is filtering once |
| `TaskUpdate.ResubmitIsFixpoint` | tasks/update_task_list.go:73-85 | Submitting again what an update stored, with the same flag, changes nothing: no task advances twice |
| `Database.TwoPasses` | database/folders.go:58-108 | The UPDATE statements, run one after the other on both tables, rewrite each directory by `TwoPass` |
| `Database.OutsideRows` | database/folders.go:24-53 | Which rows a folder delete takes, by the text of their directory, and that it changes no other |
| `Database.UpcomingChronological` | database/upcoming_main_tasks.go:19-44 | With date-shaped dates the query returns exactly the undone main tasks dated on or after the cutoff, once each, chronologically and then by id |
| `Database.UpcomingOrderIff` | database/upcoming_main_tasks.go:19-44 | With any dates: which rows are returned, in terms of dates and years, and that they are chronological if and only if their years agree pairwise |
| `Database.Database.InsertNote` | database/notes.go:9-22 | A row is added exactly, unless the id is taken or the statement fails |
| `Database.Database.UpdateNote` | database/notes.go:41-58 | Title, preview and time of one row change; a missing row is told apart |
| `Database.Database.DeleteNote` | database/notes.go:60-71 | The row goes, and the answer says whether it was there |
| `Database.Database.CountChildrenInDir` | database/folders.go:7-22 | The number of notes plus the number of lists stored with this directory |
| `Database.Database.DeleteByParentDir` | database/folders.go:24-53 | All or nothing: the selected notes and lists go, and with the lists what they own, as in the step of `TaskForest.Apply` |
| `Database.Database.RenameParentDir` | database/folders.go:58-108 | All or nothing over four UPDATEs on two tables; the task tables take the step of `TaskForest.Apply` |
| `Database.Database.InsertTask` | database/helpers.go:23-54 | The recursive insert is inserting the flattened rows, and reports them; a failure leaves some of them, from the first on |
| `Database.Database.InsertTasks` | database/task_lists.go:29-38 | The loop gives the tasks of a group the positions 0, 1, ... |
| `Database.Database.CreateTaskList` | database/task_lists.go:10-47 | All or nothing: the list and its tree, or no change; without faults exactly when the ids allow it. It takes the step of `TaskForest.Apply` |
| `Database.Database.UpdateTaskList` | database/task_lists.go:75-132 | All or nothing: the replaced tree and row, or the whole database unchanged; without faults exactly when the list exists and the ids allow it. It takes the step of `TaskForest.Apply` |
| `Database.Database.DeleteTaskList` | database/task_lists.go:136-146 | The list and, by cascade, its tasks go, as in the step of `TaskForest.Apply` |
| `Database.Database.GetTaskList` | database/task_lists.go:51-71 | The list's row and some sorted listing of its tasks |
| `Database.Database.GetMainTask` | database/task_lists.go:187-229 | The main task's row and its subtasks in position order |
| `Database.Database.ListTaskLists` | database/task_lists.go:149-183 | The lists of a directory, each with its own query's rows |
| `Database.Database.ListTaskListsWithCounts` | database/task_lists.go:233-268 | The lists of a directory with the counts of their main tasks and done main tasks |
| `Database.Database.ListUpcomingMainTasks` | database/upcoming_main_tasks.go:19-44 | The upcoming rows, sorted by due date and id |
| `TaskLists.AssignIds` | tasks/update_task_list.go:43-62 | In place: given ids stay, empty ones are filled, nothing else changes; fails exactly for a malformed id |
| `TaskLists.NewTasks` | tasks/create_task_list.go:48-84 | Every task and subtask gets the next drawn id, in the order of the rows, and the parameters carry NULL for empty fields |
| `TaskLists.CreateTaskList` | tasks/create_task_list.go:15-106 | Adds exactly the submitted tree with new ids to the stored trees, its dates well shaped; with fresh ids and without faults exactly when the request is valid, the directory exists and the id is unused; each failing reply with its exact condition |
| `TaskLists.NewIdsOnly` | tasks/create_task_list.go:48-84 | The created tasks are the submitted ones in every field but the ids, which are all new |
| `TaskLists.StoredRows` | database/helpers.go:23-54 | What a stored tree is in the table, column by column: list, parent, position, and NULL for empty fields |
| `TaskLists.UpdateTaskList` | tasks/update_task_list.go:17-138 | Replaces the list's tree by the submitted tasks, of which exactly the recurring ones just done move on to their next date, and auto-delete takes exactly what is done, and leaves every other tree as it was; or changes nothing. Its dates stay well shaped exactly if no task moves on past the year 9999. Each reply without faults has its exact condition |
| `TaskLists.AcceptsUpdateIff` | tasks/validate.go:14-49 | The requests found valid, limit by limit: counts, byte lengths, dates, rules, and ids at both levels |
| `TaskLists.DeleteTaskList` | tasks/delete_task_list.go:13-35 | Removes exactly this list's tree; an unknown list and a malformed id are told apart |
| `TaskLists.GetTaskList` | tasks/get_task_list.go:15-41 | Shows the stored tree with the list's own fields; an unknown list and a malformed id are told apart |
| `TaskLists.ListTaskLists` | tasks/list_task_lists.go:13-42 | Shows the stored tree and the fields of every list of the directory, each once, and no other; each failing reply with its exact condition |
| `TaskLists.SingleTaskRowToMainTask` | tasks/get_main_task.go:44-64 | The second way to build a main task from its rows |
| `TaskLists.GetMainTask` | tasks/get_main_task.go:15-41 | Shows exactly an element of a stored tree, and finds each of them |
| `TaskLists.MainTaskAt` | tasks/get_main_task.go:44-64 | The two read paths agree: the row and its subtasks give the element of the list's tree |
| `TaskLists.CountsAgree` | database/task_lists.go:233-268 | The aggregate counts are the numbers of main and done main tasks in the nested view, zero for an empty list |
| `TaskLists.ResubmitStoresSame` | tasks/update_task_list.go:73-132 | The pipeline takes the tree an update stored to itself, and the database takes it again |
| `TaskLists.ResubmitValidIff` | tasks/validate.go:14-49 | Validation accepts what an update answered if and only if no task moved on past the year 9999 |
| `Upcoming.ListUpcomingMainTasks` | tasks/list_upcoming_main_tasks.go:13-44 | Shows exactly the due main tasks of the stored trees, each once, by the text of the date and then by id; in date order exactly if their years agree, and always if the stored dates are well shaped |
| `Upcoming.UpcomingOrderIff` | tasks/list_upcoming_main_tasks.go:13-44 | On stored trees with any dates: the answer is in date order if and only if its years agree, and which tasks are due |
| `Upcoming.UpcomingInOrder` | tasks/list_upcoming_main_tasks.go:13-44 | On stored trees with well-shaped dates: exactly the open tasks on or after the cutoff, in date order |
| `TaskLists.DeleteHolds` | database/folders.go:24-53 | Deleting a set of lists leaves exactly the other trees |
| `TaskLists.FolderDeleteHolds` | database/folders.go:24-53 | A folder delete takes exactly the trees of the lists it selects |
| `TaskLists.RenameHolds` | database/folders.go:58-108 | A folder rename leaves every tree as it was |
| `Disk.NothingBelow` | file/update_folder.go:49-54 | Nothing lies below a path that is not there |
| `Disk.MovedFilesBack` | file/update_folder.go:73-77 | Renaming the directory back restores every file |
| `Disk.MovedDirsBack` | file/update_folder.go:73-77 | Renaming the directory back restores every directory |
| `Disk.MovedFilesIff` | file/update_folder.go:56 | After the move, path by path: the subtree with its contents below the new path, nothing below the old one, everything else as it was |
| `Disk.MovedDirsIff` | file/update_folder.go:56 | The same for directories |
| `Disk.EntriesIff` | file/list_files.go:86-98 | A directory's entries are exactly its children, by name and kind |
| `Disk.MovedTree` | file/update_folder.go:56 | The moved subtree leaves a tree |
| `Disk.Disk.AtomicWrite` | common/atomicwrite.go:10-46 | Under every fault and at every point, the target is what it was or entirely the new content, or gone by the cleanup; nothing but temporary files differs elsewhere |
| `Disk.Disk.CreateExclusive` | common/atomicwrite.go:60-68 | Never touches an existing name, and without faults reports it exactly then; otherwise the file is absent, the empty sentinel, or entirely the content at every point; a failed final rename leaves the sentinel |
| `Disk.RequireDir` | common/pathutil.go:182-191 | Succeeds only for an existing directory, and without faults exactly for one |
| `Notes.NoteKeyNotTemp` | common/atomicwrite.go:13 | A note's file is never a temporary file |
| `Notes.OthersKept` | notes/note_path.go:6-12 | A change of one note's files and of temporary files leaves every other note's file as it was |
| `Notes.CreateNote` | notes/create_note.go:18-109 | A success adds exactly this note, its preview the first 100 characters or all of it; a failure adds no row; at every point all other notes are intact; without faults each reply exactly under its condition: an invalid request, a missing directory, a taken name, or success |
| `Notes.PersistNote` | notes/create_note.go:70-98 | A failed insert removes the new file again |
| `Notes.ReplaceFile` | notes/update_note.go:66-101 | Check, rename, write and rollback: at every point the note is at its old or new path, entirely old or entirely new |
| `Notes.UpdateRow` | notes/update_note.go:103-128 | A failed row update renames back, a missing row and a failed stat do not; the new content stays in every case |
| `Notes.UpdateNote` | notes/update_note.go:17-139 | Under any fault, and at every point, the note is never lost and no other note is touched; its row's file is there on return except after exactly the replies named; the preview is the first 100 characters; without faults each reply exactly under its condition |
| `Notes.DeleteNote` | notes/delete_note.go:17-68 | The file goes first, then the row; every row keeps its file except exactly when the database fails in between; a malformed id and an unknown note are told apart |
| `Notes.GetNote` | notes/get_note.go:17-62 | Shows the row's directory and title with the content of the row's file, which is the view's note; without faults every note of the view, and not found exactly if the row or its file is missing |
| `Notes.ListNotes` | notes/list_notes.go:16-67 | Shows exactly the notes of the directory that have their file, with its content, each once; each failing reply with its exact condition |
| `NoteStore.OneFilePerNote` | notes/note_path.go:6-12 | In consistent stores there is exactly one file per note |
| `NoteStore.CreateConsistent` | notes/create_note.go:50-119 | A creation keeps the stores consistent and adds one entry to the map of notes |
| `NoteStore.UpdateConsistent` | notes/update_note.go:53-128 | An update keeps the stores consistent and changes one entry |
| `NoteStore.DeleteConsistent` | notes/delete_note.go:39-65 | A deletion keeps the stores consistent and removes one entry |
| `FolderStore.RowFollowsFile` | file/update_folder.go:56-72 | After the rename a row's path is where the move put its file exactly when `Exact` admits its directory |
| `FolderStore.RenameCommutes` | file/update_folder.go:42-80 | Where `Exact` admits every row, rows and files move together: the stores stay consistent and the map of notes is the substitution on every directory |
| `FolderStore.RenameKeepsFilesIff` | file/update_folder.go:42-80 | From consistent stores, every row has its file after the rename if and only if `Exact` admits every row |
| `FolderStore.RenameTableBackIff` | database/folders.go:65-102 | Renaming there and back restores the whole table if and only if every directory in it is one that `Restored` names |
| `FolderStore.RenameTableBack` | database/folders.go:65-102 | Where `Exact` admits every row both ways, that is if and only if no row lay below the new path before |
| `FolderStore.DeleteKeepsFiles` | file/delete_folder.go:38-50 | Whatever part of the subtree is removed, every row the cascade leaves has its file with its content |
| `FolderStore.DeleteExactIff` | file/delete_folder.go:38-50 | A delete removes exactly the notes below the folder, and leaves no file without a row, if and only if there is no case variant among the notes |
| `FolderStore.RenamedListsIff` | database/folders.go:65-102 | A rename moves exactly the task lists below the folder if and only if `Exact` admits every list |
| `FolderStore.DeletedListsIff` | database/folders.go:24-53 | A delete removes exactly the task lists below the folder if and only if there is no case variant among the lists |
| `FolderStore.CaseVariantDeleted` | database/folders.go:24-53 | Deleting "Work" deletes a list in "work/x" |
| `Folders.CreateFolder` | file/create_folder.go:15-62 | Adds exactly one directory; without faults each reply exactly under its condition: invalid name or parent, missing parent, taken name, or success |
| `Folders.MoveFolder` | file/update_folder.go:56-80 | Directory first, then rows; if the rows fail, the directory moves back and nothing has changed |
| `Folders.UpdateFolder` | file/update_folder.go:15-88 | Both stores are renamed, or neither, or the failed rollback is reported; of a row only the directory changes; without faults each reply exactly under its condition |
| `Folders.DeleteFolder` | file/delete_folder.go:14-52 | Rows first, then the directory: under every fault each row that is left has its file; exactly the rows selected and the files below go; each failing reply without faults exactly under its condition |
| `Listings.BuildFolderEntry` | file/list_files.go:30-66 | The child count is the number of subdirectories plus the rows stored with the entry's path |
| `Listings.ListFiles` | file/list_files.go:68-150 | Lists each subdirectory, each task list and each note, and nothing else: folders by name, then lists, then notes. Field by field: an entry's path, and a list's title, time, number of main tasks and of done ones in its stored tree, and a note's title, time and preview; each failing reply with its exact condition |
| `Listings.ListsExactly` | file/list_files.go:110-125 | The list entries are exactly the directory's lists, with total and done counts of the stored tree |
| `Listings.NotesExactly` | file/list_files.go:132-147 | The note entries are exactly the directory's notes, with the file's path and the stored preview |
| `Listings.FoldersExactly` | file/list_files.go:95-102 | The folder entries are exactly the subdirectories |
| `Listings.EntryPathNames` | file/list_files.go:18-26 | An entry's path is the folder's own path, except below ".", where no row can have it |
| `Listings.ChildCountIff` | file/list_files.go:30-66 | A folder's child count is the length of listing it, except for "." with rows directly in the folder |
| `ServiceSteps.NoteCreateStep` | notes/create_note.go:18-109 | Creating a note changes the model by exactly this note and keeps the invariant |
| `ServiceSteps.NoteUpdateStep` | notes/update_note.go:17-139 | Updating a note changes exactly its title and content in the model |
| `ServiceSteps.NoteDeleteStep` | notes/delete_note.go:17-68 | Deleting a note removes exactly it from the model |
| `ServiceSteps.FolderCreateStep` | file/create_folder.go:15-62 | Creating a folder adds exactly its directory to the model |
| `ServiceSteps.FolderRenameStep` | file/update_folder.go:15-88 | Renaming a folder applies the substitution to notes, lists and directories at once |
| `ServiceSteps.FolderDeleteStep` | file/delete_folder.go:14-52 | Deleting a folder removes exactly the notes, lists and directories below it |
| `ServiceSteps.FolderRenameIff` | file/update_folder.go:15-88 | A rename without faults changes the model as it should, and keeps the invariant, if and only if it is refused or `Exact` admits every stored directory |
| `ServiceSteps.FolderDeleteIff` | file/delete_folder.go:14-52 | A delete without faults changes the model as it should, and keeps the invariant, if and only if it is refused or no stored directory is a case variant |
| `ListSteps.ListCreateStep` | tasks/create_task_list.go:15-106 | Creating a list adds exactly it if the request is allowed, unless a drawn id is taken, and nothing otherwise |
| `ListSteps.ListUpdateStep` | tasks/update_task_list.go:17-138 | Updating a list replaces exactly its title, flag and tree if the request is allowed, its tasks can be advanced and their ids fit, and changes nothing otherwise |
| `ListSteps.ListDeleteStep` | tasks/delete_task_list.go:13-35 | Deleting a list removes exactly it |
| `ListSteps.StepDates` | tasks/update_task_list.go:73-85 | Every request leaves only texts of dates, and only well-shaped ones as long as no occurrence lies past the year 9999 |
| `Service.Serve` | main.go:177-199 | Any sequence of requests served without faults from a state that satisfies the invariant refines the model step by step, up to the first folder request that would be carried out although LIKE does not tell the stored directories apart; stored due dates stay texts of dates, and well-shaped as long as no occurrence lies past the year 9999 |
| `Service.EmptyGood` | main.go:117-135 | An empty data directory and an empty database satisfy the invariant, dates included |
| `Service.TraceAt` | main.go:177-199 | Each request of a served run takes the model before it to the model after it |
| `FaultyRuns.ServeAnyhow` | main.go:177-199 | One request under any faults: unless its answer is one that `Loses` names, the disk is a tree, every row has its file and the task tables hold exactly their trees; the answer to an update or a delete of a note is one that `Loses` exactly if a row is left without its file, and so is a rename's where rows and files agreed before |
| `FaultyRuns.LeftBehind` | file/update_folder.go:73-80 | A directory moved without its rows leaves every row its file exactly if its name did not change or no note is in or below it |
| `FaultyRuns.RunAnyhow` | main.go:177-199 | Any sequence of requests under any faults stays sound up to the first answer that `Loses` names; the task tables hold exactly their trees even then |
| `Schema.Store.CreateSchema` | database/schema.go:45-75 | However often it fails and runs again, the tables are the result of the first `version` migrations, each applied once and in order; a success reaches the end of the list |
| `Schema.MigrateSteps` | database/schema.go:45-75 | The result of migrations is reached step by step, each from the tables the one before it left |
| `Schema.AppendKeepsVersion` | database/schema.go:8-10 | Appending migrations leaves every database at the version it has |

## Left out

* Authentication, logging, CORS, health checks, environment parsing, shutdown and the generated protocol code: no
  state that the parts above depend on. Requests and replies are plain records.
* The recurrence engine: which occurrence comes next and which rules parse are parameters.
* The clock, time stamps taken from files, and the randomness of `uuid.NewString`: parameters. `NoteCreate` and
  `ListCreate` carry the id they draw.
* Symbolic links, except in `Paths`: the handlers are modelled on a disk without them, where by
  `ValidWithoutSymlinks` validation depends on the request alone.
* File permissions, file-name length limits, `fsync`, and invalid UTF-8 (strings are characters, so a byte that is
  no character cannot be written down).
* The database's own files, which lie in the data directory: the model's disk is without them, so it would accept a
  folder named like one of them, which the code refuses as taken.
* Renaming a folder onto an existing empty directory, which `os.Rename` allows and the stat before it refuses
  unless that stat itself fails: the model's rename fails there.
* Interleaving of handlers. The lock manager is interleaved; the stores are proved for handlers that run one after
  the other, because notes and folders use separate lockers and the row is read before the lock is taken.
* The fairness of Go's mutex: a waiter whose path is free can go on, but who goes first is left open.
* Aliasing of the tasks slice between request and handler: a task's subtasks are a value inside the task, so the
  inner loops return the new subtasks instead of writing through the slice.
* Query cancellation and the driver's errors other than "this statement failed and the transaction rolled back".
- Notes.UpdateNote: stated for a row whose path is not a directory, which holds for every row that has its file.
- Notes.DeleteNote: the same.
- TaskRoundTrip.ReadBack: trees of two levels only, as the service builds them; `insertTask` itself is modelled at any depth.
- Disk.Disk.RemoveAll: on failure any part of the subtree may be gone, which is all the code relies on.
- Folders.UpdateFolder: a stop between the move on disk and the commit of the rows leaves rows behind their files; the contract speaks of what holds on return.
- Service.Serve: stops before a folder request that would be carried out although LIKE confuses two stored directories; `ServiceSteps.FolderRenameIff` and `ServiceSteps.FolderDeleteIff` say that exactly these requests do not do what they should.
- ListSteps.ListCreateStep: when an id drawn for a task is already taken, the list may be refused or not; the ids are random.
- Disk.Disk.CreateExclusive: on a faulty disk an existing name need not be answered with `Exists`, because the open can fail for another reason first.
- Paths.ValidatedStaysInside: below a dangling link the path is inside by name only; where the link points is not modelled, since `EvalSymlinks` does not say.
- FaultyRuns.RunAnyhow: says nothing about rows and files after the first answer that `Loses` names.
