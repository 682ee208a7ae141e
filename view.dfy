/** The `BoardView` component (trello-clone/src/components/BoardView.js)
    as state: the board it shows, the filter query, and the `App` it
    reports to. Each handler computes the new board with the matching
    function of `BoardOps` and hands it to `Persist`. */
module View {
  import opened BoardModel
  import opened Text
  import Boards
  import ListColumn
  import opened BoardOps


  /** The `BoardView` component: the board it shows (`boardData`), the
      filter query, and the `App` it reports to. Every edit goes through
      `Persist`, which replaces `boardData` and calls the app's
      `updateBoard`. */
  class BoardView {
    var boardData: Board
    var query: string
    const app: Boards.App

    constructor (board: Board, app: Boards.App, globalQuery: string)
      ensures boardData == board && query == globalQuery && this.app == app
    {
      boardData := board;
      query := globalQuery;
      this.app := app;
    }

    /** The effect of `persist(b)`: `boardData` is `b`, the app's boards
        have `b` in place of the board with its id, nothing else moved. */
    twostate predicate PersistedAs(b: Board)
      reads this, app
    {
      && boardData == b && query == old(query)
      && app.boards == Boards.UpdateBoards(old(app.boards), b)
      && app.currentBoardId == old(app.currentBoardId)
    }

    /** The projection each column shows. */
    function Column(i: nat): (r: seq<Task>)
      reads this
      requires i < |boardData.lists|
      ensures ListColumn.SortedByDue(r)
      ensures |r| <= |boardData.lists[i].tasks|
    {
      ListColumn.VisibleSpec(boardData.lists[i], query);
      ListColumn.Visible(boardData.lists[i], query)
    }

    method SetQuery(q: string)
      modifies this
      ensures query == q && boardData == old(boardData)
    {
      query := q;
    }

    method Persist(updated: Board)
      modifies this, app
      ensures PersistedAs(updated)
    {
      boardData := updated;
      app.UpdateBoard(updated);
    }

    method AddList(title: string, freshId: Id)
      modifies this, app
      ensures PersistedAs(BoardOps.AddList(old(boardData), title, freshId))
    {
      Persist(BoardOps.AddList(boardData, title, freshId));
    }

    /** The "+ Add List" button: nothing happens for a cancelled or blank answer. */
    method PromptAddList(answer: Option<string>, freshId: Id)
      modifies this, app
      ensures answer.None? || AllSpace(answer.value) ==>
        boardData == old(boardData) && query == old(query)
        && app.boards == old(app.boards) && app.currentBoardId == old(app.currentBoardId)
      ensures answer.Some? && !AllSpace(answer.value) ==>
        PersistedAs(AddListFromPrompt(old(boardData), answer, freshId))
    {
      if answer.Some? && Trim(answer.value) != [] {
        AddList(Trim(answer.value), freshId);
      }
    }

    method RenameList(listId: Id, title: string)
      modifies this, app
      ensures PersistedAs(BoardOps.RenameList(old(boardData), listId, title))
    {
      Persist(BoardOps.RenameList(boardData, listId, title));
    }

    /** `saveRename` of a column: a blank name renames nothing. */
    method SubmitRename(listId: Id, nameInput: string)
      modifies this, app
      ensures AllSpace(nameInput) ==>
        boardData == old(boardData) && query == old(query)
        && app.boards == old(app.boards) && app.currentBoardId == old(app.currentBoardId)
      ensures !AllSpace(nameInput) ==>
        PersistedAs(BoardOps.RenameList(old(boardData), listId, Trim(nameInput)))
    {
      var name := ListColumn.SaveRename(nameInput);
      if name.Some? {
        RenameList(listId, name.value);
      }
    }

    method DeleteList(listId: Id)
      modifies this, app
      ensures PersistedAs(BoardOps.DeleteList(old(boardData), listId))
    {
      Persist(BoardOps.DeleteList(boardData, listId));
    }

    method AddTask(listId: Id, fields: TaskFields, freshId: Id)
      modifies this, app
      ensures PersistedAs(BoardOps.AddTask(old(boardData), listId, fields, freshId))
    {
      Persist(BoardOps.AddTask(boardData, listId, fields, freshId));
    }

    /** `addTaskNow` of a column: a blank title adds nothing. */
    method SubmitNewTask(listId: Id, newTitle: string, freshId: Id)
      modifies this, app
      ensures AllSpace(newTitle) ==>
        boardData == old(boardData) && query == old(query)
        && app.boards == old(app.boards) && app.currentBoardId == old(app.currentBoardId)
      ensures !AllSpace(newTitle) ==>
        PersistedAs(BoardOps.AddTask(old(boardData), listId,
          TaskFields(Trim(newTitle), "", "none", NoDate, []), freshId))
    {
      var fields := ListColumn.AddTaskNow(newTitle);
      if fields.Some? {
        AddTask(listId, fields.value, freshId);
      }
    }

    method DeleteTask(listId: Id, taskId: Id)
      modifies this, app
      ensures PersistedAs(BoardOps.DeleteTask(old(boardData), listId, taskId))
    {
      Persist(BoardOps.DeleteTask(boardData, listId, taskId));
    }

    method UpdateTask(listId: Id, updated: Task)
      modifies this, app
      ensures PersistedAs(BoardOps.UpdateTask(old(boardData), listId, updated))
    {
      Persist(BoardOps.UpdateTask(boardData, listId, updated));
    }

    /** `saveEditor`: the editor's result replaces the task in the list the
        editor was opened from. */
    method SaveEditor(listId: Id, initial: Task, e: EditorState)
      modifies this, app
      ensures PersistedAs(BoardOps.UpdateTask(old(boardData), listId, HandleSave(initial, e)))
    {
      UpdateTask(listId, HandleSave(initial, e));
    }

    method ToggleChecklist(listId: Id, taskId: Id, itemIndex: int)
      modifies this, app
      ensures PersistedAs(BoardOps.ToggleChecklist(old(boardData), listId, taskId, itemIndex))
    {
      Persist(BoardOps.ToggleChecklist(boardData, listId, taskId, itemIndex));
    }

    /** `onDragEnd`: nothing is persisted when the drop moves nothing. */
    method OnDragEnd(source: Location, destination: Option<Location>)
      requires destination.None? || source == destination.value || DropInRange(boardData, source, destination.value)
      modifies this, app
      ensures destination.None? || source == destination.value ==>
        boardData == old(boardData) && query == old(query)
        && app.boards == old(app.boards) && app.currentBoardId == old(app.currentBoardId)
      ensures destination.Some? && source != destination.value ==>
        PersistedAs(DragEnd(old(boardData), source, destination))
    {
      if destination.None? || source == destination.value {
        return;
      }
      Persist(DragEnd(boardData, source, destination));
    }
  }
}
