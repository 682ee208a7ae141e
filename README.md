# Task board mutation and reordering engine, in Dafny

This project models the part of the `trello-clone` task-board app that
owns the board data and changes it. A board holds an ordered sequence of
lists. A list holds an ordered sequence of tasks. A task holds a
checklist. The model covers:

- the `App` coordinator's board collection: create, delete, replace,
  import, left/right reorder and the current-board lookup
  (`src/App.js`);
- the open board's list, task and checklist edits, the drag-and-drop
  commit and the task editor's save (`src/components/BoardView.js`);
- each column's filtered, due-date-sorted projection and the input
  guards of its buttons (`src/components/ListColumn.js`).

Modules:

- `Text`: the JavaScript string operations the code relies on
  (`trim`, ASCII `toLowerCase`, `includes`, `split`/`join` on one
  character).
- `Seqs`: `splice` removal and insertion on a copy, and the
  destructuring swap.
- `BoardModel`: the datatypes, the `find`/`findIndex` lookups, and
  `Flatten`, all tasks of a board in list order. `Flatten` is used to
  count tasks across lists.
- `Boards`: `makeBoard` and the collection operations as functions,
  plus the class `App`. Its fields are `boards` and `currentBoardId`,
  and its methods are the state updates of `App.js`.
- `ListColumn`: `visible`, modelled as a filter followed by a stable
  insertion sort, and the `addTaskNow`, `saveRename` and `dragDisabled`
  guards.
- `BoardOps`: the `BoardView` operations as functions from the old
  board to the new one, the drag-and-drop commit, and the editor's
  checklist text round trip.
- `View`: the class `BoardView`. Its fields are `boardData`, `query` and
  `app`. Each handler computes the new board with `BoardOps` and hands
  it to `Persist`, which calls the app's `UpdateBoard`.

Ids generated from the clock (`"board-" + Date.now()` and the like) are
parameters named `freshId`. Lemmas that need a new id require it to be
absent from the board. The lemmas about a board's lists that require
distinct list ids rely on an invariant: `MakeBoard` creates distinct
ids, `AddList` under a fresh id and `DeleteList` keep them distinct
(`AddListKeepsIdsDistinct`, `DeleteListKeepsIdsDistinct`), and every
other edit keeps the list ids unchanged (the `ListIds(r.lists) ==
ListIds(b.lists)` clauses of their contracts, and `RenameListFacts`).

Where the app's documented behaviour and the code disagree, the model
follows the code:

- `createBoard` itself ignores only the empty name (`!name`), so given
  a name made only of spaces it would still create a board. Its callers
  (`src/components/Sidebar.js:25-26`, `src/components/Dashboard.js:18`)
  reject a blank name and pass the trimmed one; that guard in the
  callers is not modelled, so in the app a blank name never reaches
  `CreateBoards`.
- Within one list, a drag loses the task (see Findings).
- A due date is either absent or a calendar day, and days compare as
  numbers.

## Model

| member | source | states |
|---|---|---|
| Boards.MakeBoard | trello-clone/src/App.js:15-26 | the new board has the given id and name and three lists "To Do", "In Progress", "Done" with ids list-todo, list-progress, list-done; the ids are distinct and there are no tasks |
| Boards.CreateBoards | trello-clone/src/App.js:54-57 | an empty name changes nothing; otherwise the old boards are kept in order and one default board is appended |
| Boards.CreateThenDelete | trello-clone/src/App.js:54-63 | deleting the board just created under a fresh id restores the collection |
| Boards.CreateKeepsIdsDistinct | trello-clone/src/App.js:54-57 | creating under a fresh id keeps board ids distinct |
| Boards.DeleteBoards | trello-clone/src/App.js:61 | the filter never lengthens the boards (what it keeps: `DeleteBoardsSpec`) |
| Boards.DeleteBoardsSpec | trello-clone/src/App.js:61 | a board is kept exactly when it is in the input and has another id, as often as it occurs there; boards with the id are gone |
| Boards.DeleteBoardsAbsent | trello-clone/src/App.js:61 | deleting an id no board carries changes nothing |
| Boards.DeleteBoardsRemovesId | trello-clone/src/App.js:61 | no board with the id remains |
| Boards.DeleteBoardsAppend | trello-clone/src/App.js:61 | the filter distributes over concatenation |
| Boards.DeleteOnlyAt | trello-clone/src/App.js:61 | deleting an id that only position k carries removes exactly position k and keeps the rest in order |
| Boards.DeleteOneBoard | trello-clone/src/App.js:61 | with distinct ids, deleting board k's id removes exactly board k and keeps the rest in order |
| Boards.UpdateBoards | trello-clone/src/App.js:66-68 | length is kept; each board with the updated board's id is replaced by it and the others are kept |
| Boards.UpdateBoardsFacts | trello-clone/src/App.js:66-68 | ids are unchanged; an unknown id changes nothing; afterwards the lookup finds the updated board; updating twice equals updating once |
| Boards.MovedBoards | trello-clone/src/App.js:95-105 | a move keeps the length, the boards as a multiset and the ids as a multiset |
| Boards.MovedBoardsCases | trello-clone/src/App.js:97-103 | an unknown id or a neighbour past either end changes nothing; otherwise exactly the board and its neighbour exchange places |
| Boards.MovedIsSwap | trello-clone/src/App.js:97-103 | when the move happens it is the swap of the found index with its neighbour |
| Boards.IndexAfterLeft | trello-clone/src/App.js:97-102 | after a left swap the board is found one place to the left |
| Boards.IndexAfterRight | trello-clone/src/App.js:97-102 | when the right neighbour carries another id, after a right swap the board is found one place to the right |
| Boards.MoveLeftThenRight | trello-clone/src/App.js:95-105 | moving a board that is not first left and then right restores the order |
| Boards.MoveRightThenLeft | trello-clone/src/App.js:95-105 | moving a board that is not last and whose right neighbour carries another id right and then left restores the order |
| Boards.App.constructor | trello-clone/src/App.js:29-30 | no boards and no current board |
| Boards.App.Load | trello-clone/src/App.js:43-46 | a saved array replaces the boards; anything else leaves them alone |
| Boards.App.CurrentBoard | trello-clone/src/App.js:107 | no open id means no current board; otherwise the first board with the open id |
| Boards.App.OpenBoard | trello-clone/src/App.js:121 | the open id is set and the boards are unchanged |
| Boards.App.CloseBoard | trello-clone/src/App.js:137 | no board is open and the boards are unchanged |
| Boards.App.CreateBoard | trello-clone/src/App.js:54-57 | the boards become `CreateBoards` of the old ones; the open board is unchanged |
| Boards.App.DeleteBoard | trello-clone/src/App.js:60-63 | the boards become `DeleteBoards` of the old ones; the open board is cleared exactly when it was the deleted id |
| Boards.App.UpdateBoard | trello-clone/src/App.js:66-68 | the boards become `UpdateBoards` of the old ones; the open board is unchanged |
| Boards.App.ImportBoards | trello-clone/src/App.js:85-92 | accepted exactly for an array, which then replaces all boards and closes the open board; otherwise nothing changes |
| Boards.App.MoveBoard | trello-clone/src/App.js:95-105 | the boards become `MovedBoards` of the old ones, computed by swapping the two slots of a copied array |
| BoardModel.NewTask | trello-clone/src/components/BoardView.js:45 | the task carries the given id and exactly the submitted fields |
| BoardModel.BoardIndex | trello-clone/src/App.js:97 | -1 exactly when no board has the id; otherwise the first position holding it |
| BoardModel.BoardIndexIs | trello-clone/src/App.js:97 | the first position holding the id is the one found |
| BoardModel.ListIndex | trello-clone/src/components/BoardView.js:102-103 | -1 exactly when no list has the id; otherwise the first position holding it |
| BoardModel.ListIndexUnique | trello-clone/src/components/BoardView.js:102-103 | with distinct list ids the position found is the only one with the id |
| BoardModel.FindBoard | trello-clone/src/App.js:107 | absent exactly when no board has the id; otherwise a board of the collection with that id, the first one |
| BoardModel.FindList | trello-clone/src/components/BoardView.js:102-103 | absent exactly when no list has the id; otherwise the first list with that id |
| BoardModel.Flatten | trello-clone/src/components/BoardView.js:109-116 | a board's tasks in list order: none without lists, and the first list's tasks first (over concatenation: `FlattenAppend`) |
| BoardModel.FlattenAppend | trello-clone/src/components/BoardView.js:109-116 | the tasks of concatenated list sequences are the concatenated tasks |
| BoardModel.FlattenUpdate | trello-clone/src/components/BoardView.js:109-116 | replacing one list exchanges its tasks for the new list's tasks in the board's multiset of tasks |
| Seqs.RemoveAt | trello-clone/src/components/BoardView.js:106 | the element at the index is dropped and the others keep their order; the multiset loses exactly that element |
| Seqs.InsertAt | trello-clone/src/components/BoardView.js:107 | the element is inserted before the index, or at the end past it; the others keep their order; the multiset gains the element |
| Seqs.RemoveInserted | trello-clone/src/components/BoardView.js:106-107 | removing at the insertion point gives the original sequence back |
| Seqs.Swap | trello-clone/src/App.js:102 | the two positions exchange values and nothing else changes; the multiset is kept |
| Seqs.SwapPermutes | trello-clone/src/App.js:102 | exchanging two positions keeps the multiset |
| Seqs.SwapSymmetric | trello-clone/src/App.js:102 | the order of the two swapped positions does not matter |
| Seqs.SwapTwice | trello-clone/src/App.js:102 | swapping twice restores the sequence |
| Text.TrimStart | trello-clone/src/components/ListColumn.js:24 | a suffix of the input, preceded only by white space, starting with a non-space |
| Text.TrimEnd | trello-clone/src/components/ListColumn.js:24 | a prefix of the input, followed only by white space, ending with a non-space |
| Text.Trim | trello-clone/src/components/ListColumn.js:24 | the trimmed string has no space at either end, is empty exactly for an all-space input, and is what remains of the input once exactly its leading and its trailing white space are dropped |
| Text.TrimBlank | trello-clone/src/components/ListColumn.js:45 | trimming yields "" exactly when the input is all white space |
| Text.TrimIdempotent | trello-clone/src/components/ListColumn.js:45-46 | trimming twice equals trimming once |
| Text.TrimWithin | trello-clone/src/components/BoardView.js:178 | the trimmed string holds only characters of the input |
| Text.TrimmedIsFixed | trello-clone/src/components/BoardView.js:178 | a string with no space at either end is left as it is |
| Text.LowerChar | trello-clone/src/components/ListColumn.js:30 | upper-case ASCII letters become lower case, other characters are kept, and no upper-case ASCII letter remains |
| Text.ToLower | trello-clone/src/components/ListColumn.js:30 | characterwise lower-casing that keeps the length |
| Text.ToLowerAppend | trello-clone/src/components/ListColumn.js:30 | lower-casing distributes over concatenation |
| Text.ToLowerIdempotent | trello-clone/src/components/ListColumn.js:24 | lower-casing twice equals lower-casing once and keeps emptiness |
| Text.Contains | trello-clone/src/components/ListColumn.js:31 | true exactly when the needle occurs at some position of the haystack |
| Text.IndexOf | trello-clone/src/components/BoardView.js:177 | -1 exactly when the character is absent; otherwise its first position |
| Text.Split | trello-clone/src/components/BoardView.js:177 | at least one piece, no piece holds the separator, and joining the pieces gives the input back |
| Text.Join | trello-clone/src/components/BoardView.js:173 | no pieces join to ""; the first piece starts the result, followed by the separator when more pieces follow (its inverse: `SplitJoin`) |
| Text.JoinCons | trello-clone/src/components/BoardView.js:173 | joining a piece before others puts the separator between them |
| Text.IndexOfAfter | trello-clone/src/components/BoardView.js:177 | the first separator is the one right after a separator-free prefix |
| Text.SplitStep | trello-clone/src/components/BoardView.js:177 | a separator-free prefix followed by the separator is the first piece |
| Text.SplitJoin | trello-clone/src/components/BoardView.js:173-177 | splitting the join of separator-free pieces gives the pieces back |
| ListColumn.Query | trello-clone/src/components/ListColumn.js:24 | the normalised query is empty exactly when the filter text is all white space |
| ListColumn.Haystack | trello-clone/src/components/ListColumn.js:29-30 | the lower-cased title, description and label joined by single spaces, hence as long as the three plus two and with no upper-case ASCII letter |
| ListColumn.Matches | trello-clone/src/components/ListColumn.js:31 | the empty query matches every task; a query longer than the haystack matches none |
| ListColumn.FilterTasks | trello-clone/src/components/ListColumn.js:28-33 | a task is kept exactly when its haystack contains the query, as often as it occurs; nothing is added (the kept tasks keep their relative order: `FilterAppend`; within each due date: `FilterWithDue`) |
| ListColumn.FilterAppend | trello-clone/src/components/ListColumn.js:29-32 | filtering distributes over concatenation: the kept tasks keep their relative order |
| ListColumn.FilterEmptyQuery | trello-clone/src/components/ListColumn.js:28-33 | the empty query keeps every task |
| ListColumn.Compare | trello-clone/src/components/ListColumn.js:35-40 | negative exactly when the first task is dated and the second undated or due later; positive exactly in the mirrored case |
| ListColumn.CompareIsConsistent | trello-clone/src/components/ListColumn.js:35-40 | the comparator is antisymmetric, zero exactly for equal due dates, and agrees with a total, transitive order that puts undated tasks last |
| ListColumn.WithDueAppend | trello-clone/src/components/ListColumn.js:35 | the tasks with one due date, of a concatenation, are concatenated |
| ListColumn.WithDueSnoc | trello-clone/src/components/ListColumn.js:35 | appending one task adds it to its own due date's tasks only |
| ListColumn.WithDueCons | trello-clone/src/components/ListColumn.js:35 | prepending one task adds it to its own due date's tasks only |
| ListColumn.Insert | trello-clone/src/components/ListColumn.js:35-40 | one insertion step of the sort adds exactly one element (its contents: `InsertPermutes`) |
| ListColumn.InsertPermutes | trello-clone/src/components/ListColumn.js:35-40 | insertion adds exactly the one task |
| ListColumn.InsertSorted | trello-clone/src/components/ListColumn.js:35-40 | inserting into a sorted sequence keeps it sorted by due date |
| ListColumn.NoneWithDue | trello-clone/src/components/ListColumn.js:35-40 | a sorted sequence holds no task due strictly before its first |
| ListColumn.InsertStable | trello-clone/src/components/ListColumn.js:35-40 | inserting goes after all tasks with an equal due date |
| ListColumn.InsertSkipStable | trello-clone/src/components/ListColumn.js:35-40 | when the new task goes past the head, the head stays first among the tasks of its due date |
| ListColumn.SortByDue | trello-clone/src/components/ListColumn.js:35-40 | sorting is a permutation |
| ListColumn.SortByDueSorted | trello-clone/src/components/ListColumn.js:35-40 | the sorted sequence is ordered by due date with undated tasks last |
| ListColumn.InsertIntoSorted | trello-clone/src/components/ListColumn.js:35-40 | inserting into a sorted sequence keeps each due date's tasks in order, the new one last |
| ListColumn.SortByDueStable | trello-clone/src/components/ListColumn.js:35-40 | tasks with equal due dates keep their relative order |
| ListColumn.FilterWithDue | trello-clone/src/components/ListColumn.js:28-33 | filtering keeps, within each due date, the list order of the kept tasks |
| ListColumn.Visible | trello-clone/src/components/ListColumn.js:26-42 | the projection shows at most the list's tasks, all of them for an empty query (what it shows and in what order: `VisibleSpec`) |
| ListColumn.VisibleSpec | trello-clone/src/components/ListColumn.js:24-42 | a task is shown exactly when it matches the query, as often as stored; an empty query shows every task; the view is sorted by due date; the shown tasks of each due date are that date's tasks of the list in list order, filtered by the query when it is not empty |
| ListColumn.DatedFirst | trello-clone/src/components/ListColumn.js:35-40 | in a sequence sorted by the comparator, a dated task precedes an undated one |
| ListColumn.DatedBeforeUndated | trello-clone/src/components/ListColumn.js:34-40 | every dated task is shown before every undated one |
| ListColumn.VisibleExample | trello-clone/src/components/ListColumn.js:26-42 | a dated task stored before an undated one is shown first |
| ListColumn.AddTaskNow | trello-clone/src/components/ListColumn.js:44-48 | nothing is submitted exactly for a blank title; otherwise the trimmed non-empty title with description "", label "none", no due date and no checklist |
| ListColumn.SaveRename | trello-clone/src/components/ListColumn.js:50-54 | no rename exactly for a blank name; otherwise the trimmed non-empty name |
| ListColumn.DragDisabled | trello-clone/src/components/ListColumn.js:56 | dragging is disabled exactly when the filter text is not all white space |
| BoardOps.MapLists | trello-clone/src/components/BoardView.js:35 | the lists with the id are transformed and the others are kept |
| BoardOps.MapListsAt | trello-clone/src/components/BoardView.js:35 | with distinct ids, exactly the one list is transformed (distinct list ids are an invariant of every board the app builds: `MakeBoard`, `AddListKeepsIdsDistinct`, `DeleteListKeepsIdsDistinct`) |
| BoardOps.AddList | trello-clone/src/components/BoardView.js:27-30 | an empty list with the fresh id and title is appended; the lists before it and all tasks are unchanged |
| BoardOps.AddListKeepsIdsDistinct | trello-clone/src/components/BoardView.js:27-30 | adding a list under a fresh id keeps the list ids distinct |
| BoardOps.AddListFromPrompt | trello-clone/src/components/BoardView.js:135-138 | a cancelled or blank answer changes nothing; otherwise the list added carries the trimmed, non-empty answer |
| BoardOps.AddListThenDelete | trello-clone/src/components/BoardView.js:27-41 | adding a list under a fresh id and deleting that id restores the board |
| BoardOps.RenameList | trello-clone/src/components/BoardView.js:32-37 | lists keep their ids and tasks; exactly the lists with the id take the new title |
| BoardOps.RenameListFacts | trello-clone/src/components/BoardView.js:32-37 | a rename keeps the list ids and every task in place, and of two renames only the last counts |
| BoardOps.SameTasksSameFlatten | trello-clone/src/components/BoardView.js:35 | lists holding the same tasks give the same board tasks |
| BoardOps.DeleteLists | trello-clone/src/components/BoardView.js:40 | the filter never lengthens the lists (what it keeps: `DeleteListsSpec`) |
| BoardOps.DeleteListsSpec | trello-clone/src/components/BoardView.js:40 | a list is kept exactly when it is in the input and has another id, as often as it occurs there |
| BoardOps.DeleteListsAbsent | trello-clone/src/components/BoardView.js:40 | filtering out an id no list carries changes nothing |
| BoardOps.DeleteListsOnlyAt | trello-clone/src/components/BoardView.js:40 | filtering out an id that only position k carries removes exactly position k and keeps the rest in order |
| BoardOps.DeleteList | trello-clone/src/components/BoardView.js:39-41 | no list with the id remains; a list remains exactly when it is one of the board's lists with another id |
| BoardOps.DeleteListKeepsIdsDistinct | trello-clone/src/components/BoardView.js:39-41 | deleting a list keeps the remaining list ids distinct |
| BoardOps.DeleteListsKeepsDistinct | trello-clone/src/components/BoardView.js:40 | the id filter's result, a subsequence of its input, keeps distinct ids distinct |
| BoardOps.FlattenWithout | trello-clone/src/components/BoardView.js:39-41 | leaving out list k leaves out exactly its tasks from the board's tasks |
| BoardOps.DeleteListsAppend | trello-clone/src/components/BoardView.js:40 | the filter distributes over concatenation |
| BoardOps.DeleteListCascade | trello-clone/src/components/BoardView.js:39-41 | with distinct ids, deleting list k removes exactly that list, keeps the rest in order, and removes exactly its tasks from the board (distinct list ids are an invariant of every board the app builds: `MakeBoard`, `AddListKeepsIdsDistinct`, `DeleteListKeepsIdsDistinct`) |
| BoardOps.AddTask | trello-clone/src/components/BoardView.js:44-50 | list ids are kept; each list with the id gains the new task at its end and the others are unchanged |
| BoardOps.AddTaskCount | trello-clone/src/components/BoardView.js:44-50 | with distinct list ids, the board's tasks gain exactly the new task, or nothing when the list is unknown (distinct list ids are an invariant of every board the app builds: `MakeBoard`, `AddListKeepsIdsDistinct`, `DeleteListKeepsIdsDistinct`) |
| BoardOps.DeleteTasks | trello-clone/src/components/BoardView.js:55 | the filter never lengthens the tasks (what it keeps: `DeleteTasksSpec`) |
| BoardOps.DeleteTasksSpec | trello-clone/src/components/BoardView.js:55 | a task is kept exactly when it is in the input and has another id, as often as it occurs there |
| BoardOps.DeleteTasksAbsent | trello-clone/src/components/BoardView.js:55 | filtering out an id no task carries changes nothing |
| BoardOps.DeleteTasksAppend | trello-clone/src/components/BoardView.js:55 | the filter distributes over concatenation |
| BoardOps.DeleteTask | trello-clone/src/components/BoardView.js:52-57 | other lists are untouched; each list with the id keeps its title and its tasks become `DeleteTasks` of the old ones, so exactly the tasks without the task id remain |
| BoardOps.AddTaskThenDelete | trello-clone/src/components/BoardView.js:44-57 | adding a task under an id no task has and deleting it restores the board |
| BoardOps.FreshInEveryList | trello-clone/src/components/BoardView.js:44-57 | an id absent from the board's tasks is absent from each list |
| BoardOps.UpdateTasks | trello-clone/src/components/BoardView.js:62 | length and ids are kept; each task with the updated task's id is replaced by it |
| BoardOps.UpdateTask | trello-clone/src/components/BoardView.js:59-64 | other lists are untouched, the lists with the id have their matching tasks replaced, and the task count is kept |
| BoardOps.SameCountsSameTotal | trello-clone/src/components/BoardView.js:62 | lists with the same task counts give the same total |
| BoardOps.UpdateTaskFacts | trello-clone/src/components/BoardView.js:59-64 | an unknown task id changes nothing, and updating twice equals updating once |
| BoardOps.ToggleItems | trello-clone/src/components/BoardView.js:87 | texts are kept, only the item at the index flips, and an index outside the checklist changes nothing |
| BoardOps.ToggleTasks | trello-clone/src/components/BoardView.js:85-89 | only the tasks with the id have their checklist toggled |
| BoardOps.ToggleChecklist | trello-clone/src/components/BoardView.js:78-94 | other lists are untouched; in the lists with the id, titles and task counts are kept and the tasks with the task id have the item toggled |
| BoardOps.ToggleItemsTwice | trello-clone/src/components/BoardView.js:87 | toggling the same item twice restores the checklist |
| BoardOps.ToggleTwice | trello-clone/src/components/BoardView.js:78-94 | toggling the same item twice restores the board |
| BoardOps.DragEnd | trello-clone/src/components/BoardView.js:97-119 | no destination, or the same list and index, changes nothing; list ids are always kept |
| BoardOps.Retask | trello-clone/src/components/BoardView.js:109-116 | the lists with the source id take the new source tasks, the other lists with the destination id take the new destination tasks, and the rest are kept |
| BoardOps.RetaskTwo | trello-clone/src/components/BoardView.js:109-116 | with distinct ids and two different lists, exactly those two lists change (distinct list ids are an invariant of every board the app builds: `MakeBoard`, `AddListKeepsIdsDistinct`, `DeleteListKeepsIdsDistinct`) |
| BoardOps.RetaskOne | trello-clone/src/components/BoardView.js:109-116 | with distinct ids and one list as both ends, only the source case applies (distinct list ids are an invariant of every board the app builds: `MakeBoard`, `AddListKeepsIdsDistinct`, `DeleteListKeepsIdsDistinct`) |
| BoardOps.MoveKeepsTasks | trello-clone/src/components/BoardView.js:106-116 | one list losing a task and another gaining it keeps the board's tasks |
| BoardOps.DragBetweenLists | trello-clone/src/components/BoardView.js:97-119 | a drop into another list removes the task from the source, inserts it at the destination index (clamped), leaves other lists alone, and conserves the board's tasks (distinct list ids are an invariant of every board the app builds: `MakeBoard`, `AddListKeepsIdsDistinct`, `DeleteListKeepsIdsDistinct`) |
| BoardOps.DragWithinListLosesTask | trello-clone/src/components/BoardView.js:106-113 | as written, a drop at another index of the same list leaves the list with the task removed, so the board loses exactly that task (distinct list ids are an invariant of every board the app builds: `MakeBoard`, `AddListKeepsIdsDistinct`, `DeleteListKeepsIdsDistinct`) |
| BoardOps.DragEndIntended | trello-clone/src/components/BoardView.js:97-119 | the corrected drop: no-ops as in the code, and a reorder within one list removes first and then inserts into the shortened sequence |
| BoardOps.DragIntendedWithinList | trello-clone/src/components/BoardView.js:97-119 | corrected same-list reorder: the task lands at the destination index (clamped), the others keep their relative order, and the board keeps every task (distinct list ids are an invariant of every board the app builds: `MakeBoard`, `AddListKeepsIdsDistinct`, `DeleteListKeepsIdsDistinct`) |
| BoardOps.IntendedWithinShape | trello-clone/src/components/BoardView.js:97-119 | the corrected same-list drop replaces only that list's tasks, by the reinsertion into the shortened sequence (distinct list ids are an invariant of every board the app builds: `MakeBoard`, `AddListKeepsIdsDistinct`, `DeleteListKeepsIdsDistinct`) |
| BoardOps.Reordered | trello-clone/src/components/BoardView.js:106-107 | taking an element out and reinserting it puts it at the destination (clamped to the last place), keeps the others in order and keeps the multiset |
| BoardOps.ReplaceKeepsTasks | trello-clone/src/components/BoardView.js:109-116 | replacing a list by one with the same tasks in any order keeps the board's tasks |
| BoardOps.DragIntendedBetweenLists | trello-clone/src/components/BoardView.js:97-119 | moves between different lists are the same in both versions |
| BoardOps.DragIndexIsNotVisibleIndex | trello-clone/src/components/BoardView.js:104 | the drag index counts stored positions, not shown ones: with an undated task stored before a dated one, the first card shown is the dated task, yet dragging the first card moves the undated one |
| BoardOps.Texts | trello-clone/src/components/BoardView.js:173 | the item texts in order |
| BoardOps.OpenEditor | trello-clone/src/components/BoardView.js:169-173 | the fields start from the task, a missing label shows as "none", and the checklist is the item texts joined by newlines |
| BoardOps.Items | trello-clone/src/components/BoardView.js:178-180 | at most one item per line |
| BoardOps.TrimAll | trello-clone/src/components/BoardView.js:178 | every line trimmed, in place |
| BoardOps.NonEmpty | trello-clone/src/components/BoardView.js:179 | keeps exactly the non-empty strings, never more than given |
| BoardOps.AsItems | trello-clone/src/components/BoardView.js:180 | one item per text, with that text, not done |
| BoardOps.AsItemsAppend | trello-clone/src/components/BoardView.js:180 | making items distributes over concatenation |
| BoardOps.PipelineStep | trello-clone/src/components/BoardView.js:178-180 | the staged parse of lines is the first line's item followed by the staged parse of the rest |
| BoardOps.ItemsArePipeline | trello-clone/src/components/BoardView.js:178-180 | for any lines, the line-by-line parse equals trim, then drop the empty, then make items not done, in line order |
| BoardOps.ItemsAppend | trello-clone/src/components/BoardView.js:178-180 | parsing concatenated lines concatenates their items |
| BoardOps.ItemsSingle | trello-clone/src/components/BoardView.js:178-180 | one line parses to its own item |
| BoardOps.LineItem | trello-clone/src/components/BoardView.js:178-180 | at most one item; none exactly for an all-space line; otherwise the trimmed line, not done |
| BoardOps.LineItemWellFormed | trello-clone/src/components/BoardView.js:178-180 | a newline-free line gives at most one item, non-empty, trimmed, on one line and not done |
| BoardOps.ParseChecklist | trello-clone/src/components/BoardView.js:176-180 | the items are the text's lines, split on "\n", each trimmed, the empty ones dropped, the rest in order and not done (`TrimAll`, `NonEmpty`, `AsItems`); every item is non-empty, trimmed and on one line |
| BoardOps.ParseChecklistItems | trello-clone/src/components/BoardView.js:176-180 | an item is saved exactly when it is, not done, the non-empty trim of one of the text's lines |
| BoardOps.ParsePadded | trello-clone/src/components/BoardView.js:176-180 | the padded line " a" is saved as the item "a" |
| BoardOps.ItemsWellFormed | trello-clone/src/components/BoardView.js:176-180 | newline-free lines give at most one item each, every item non-empty, trimmed, on one line and not done |
| BoardOps.ItemsOfTexts | trello-clone/src/components/BoardView.js:178-180 | well-formed texts parse to the same items, not done |
| BoardOps.ResetDone | trello-clone/src/components/BoardView.js:180 | texts are kept and no item is done |
| BoardOps.ChecklistRoundTrip | trello-clone/src/components/BoardView.js:173-180 | opening and saving a well-formed checklist unchanged keeps its texts and clears every done flag |
| BoardOps.ParseChecklistStable | trello-clone/src/components/BoardView.js:173-180 | saving a saved checklist again changes nothing |
| BoardOps.HandleSave | trello-clone/src/components/BoardView.js:175-184 | id and other fields are kept, the title is trimmed, the rest comes from the editor, and the checklist is the parsed text |
| BoardOps.SaveUnedited | trello-clone/src/components/BoardView.js:169-184 | opening and saving at once trims the title, fills in the label "none", and clears the done flags of a well-formed checklist; nothing else changes |
| View.BoardView.constructor | trello-clone/src/components/BoardView.js:13-16 | the view starts on the given board and query |
| View.BoardView.SetQuery | trello-clone/src/components/BoardView.js:131 | the query changes and the board does not |
| View.BoardView.Persist | trello-clone/src/components/BoardView.js:21-24 | the shown board becomes the new value and the app replaces the board with its id; the query and the open board are kept |
| View.BoardView.AddList | trello-clone/src/components/BoardView.js:27-30 | persists `BoardOps.AddList` of the shown board |
| View.BoardView.Column | trello-clone/src/components/BoardView.js:143-153 | each column shows the projection of its list under the board's filter query: sorted by due date and never more tasks than the list holds |
| View.BoardView.PromptAddList | trello-clone/src/components/BoardView.js:135-138 | a cancelled or blank answer changes nothing (board, filter query and app state alike); otherwise persists the list added under the trimmed answer |
| View.BoardView.RenameList | trello-clone/src/components/BoardView.js:32-37 | persists `BoardOps.RenameList` of the shown board |
| View.BoardView.SubmitRename | trello-clone/src/components/ListColumn.js:50-54 | a blank name changes nothing (board, filter query and app state alike); otherwise persists the rename to the trimmed name |
| View.BoardView.DeleteList | trello-clone/src/components/BoardView.js:39-41 | persists `BoardOps.DeleteList` of the shown board |
| View.BoardView.AddTask | trello-clone/src/components/BoardView.js:44-50 | persists `BoardOps.AddTask` of the shown board |
| View.BoardView.SubmitNewTask | trello-clone/src/components/ListColumn.js:44-48 | a blank title changes nothing (board, filter query and app state alike); otherwise persists the new task with the trimmed title and default fields |
| View.BoardView.DeleteTask | trello-clone/src/components/BoardView.js:52-57 | persists `BoardOps.DeleteTask` of the shown board |
| View.BoardView.UpdateTask | trello-clone/src/components/BoardView.js:59-64 | persists `BoardOps.UpdateTask` of the shown board |
| View.BoardView.SaveEditor | trello-clone/src/components/BoardView.js:71-75 | persists the editor's result in place of the task, in the list the editor was opened from |
| View.BoardView.ToggleChecklist | trello-clone/src/components/BoardView.js:78-94 | persists `BoardOps.ToggleChecklist` of the shown board |
| View.BoardView.OnDragEnd | trello-clone/src/components/BoardView.js:97-119 | a drop that moves nothing changes nothing (board, filter query and app state alike); otherwise persists `BoardOps.DragEnd` as written |

## Left out

- React rendering, hooks and modal state are out of scope. The editor's
  open/closed flag and `editingTask` are not modelled. `SaveEditor` takes
  the list id and the initial task as parameters. The extra `listId`
  field that `openEditor` adds to the edited task is not modelled.
- The `useEffect` that copies a new `board` prop into `boardData`, and
  the one that copies `globalQuery` into `query`, are not modelled. The
  constructor and `SetQuery` stand for them.
- Storage is out of scope. Loading, saving, `localStorage` and JSON
  parsing are I/O; `Load` receives the decoded value. `exportBoards`
  (file download) and the theme toggle are out of scope too.
- `Date.now()` ids: the clock is replaced by a `freshId` parameter.
- Due dates are modelled as whole days compared as numbers. Parsing date
  strings with `new Date` is not modelled, and neither is the
  subtraction of two such dates.
- Text.LowerChar, Text.ToLower: `toLowerCase` is modelled on ASCII
  letters only; Unicode case mapping is not modelled.
- The checklist progress percentage (rounded division) belongs to the
  task card and is not modelled.
- `BoardOps.DragEnd` and `View.BoardView.OnDragEnd` require that both
  lists exist and that the source index names a task. The drag library
  only reports such drops. Otherwise the code reads a property of
  `undefined`, or inserts `undefined`; that is a crash, not a behaviour
  worth modelling.
- The description and label that the code treats as absent are modelled
  as "". A task without a checklist is modelled as one with an empty
  checklist.

## Findings

| source | as written | input that shows it | evidently intended | confidence | as-written member | corrected member |
|---|---|---|---|---|---|---|
| trello-clone/src/components/BoardView.js:106-113 | when source and destination are the same list, the final map gives that list the source copy (task removed) because the source case is tested first, discarding the destination copy | dragging the first of two tasks of one list to index 1 leaves the list with one task | a reorder within a list removes the task and inserts it at the destination index of the shortened sequence, keeping every task | high, not executed | BoardOps.DragWithinListLosesTask | BoardOps.DragIntendedWithinList |
