/** The open board (trello-clone/src/components/BoardView.js): the list,
    task and checklist edits as pure functions from the board value to
    the new board value, the drag-and-drop commit `onDragEnd`, the task
    editor's save, and the `BoardView` component that holds the board it
    shows and hands every new value to the `App` coordinator. */
module BoardOps {
  import opened BoardModel
  import opened Seqs
  import opened Text
  import ListColumn

  /** `lists.map(l => l.id === id ? f(l) : l)`. */
  function MapLists(ls: seq<TaskList>, id: Id, f: TaskList -> TaskList): (r: seq<TaskList>)
    ensures |r| == |ls|
    ensures forall i :: 0 <= i < |ls| ==> r[i] == if ls[i].id == id then f(ls[i]) else ls[i]
  {
    seq(|ls|, i requires 0 <= i < |ls| => if ls[i].id == id then f(ls[i]) else ls[i])
  }

  /** With distinct list ids the map changes the one list with the id. */
  lemma MapListsAt(ls: seq<TaskList>, id: Id, f: TaskList -> TaskList, k: nat)
    requires Distinct(ListIds(ls))
    requires k < |ls| && ls[k].id == id
    ensures MapLists(ls, id, f) == ls[k := f(ls[k])]
  {
    forall i | 0 <= i < |ls| && i != k ensures ls[i].id != id {
      if i < k {
        assert ListIds(ls)[i] != ListIds(ls)[k];
      } else {
        assert ListIds(ls)[k] != ListIds(ls)[i];
      }
    }
  }

  // ---------------------------------------------------------------- lists

  /** `addList`: a new empty list at the end; the lists before it and all
      tasks stay as they were. */
  function AddList(b: Board, title: string, freshId: Id): (r: Board)
    ensures r.id == b.id && r.name == b.name
    ensures |r.lists| == |b.lists| + 1 && r.lists[..|b.lists|] == b.lists
    ensures r.lists[|b.lists|] == TaskList(freshId, title, [])
    ensures Flatten(r.lists) == Flatten(b.lists)
  {
    var ls := b.lists + [TaskList(freshId, title, [])];
    FlattenAppend(b.lists, [TaskList(freshId, title, [])]);
    assert ls[..|b.lists|] == b.lists;
    b.(lists := ls)
  }

  /** Adding a list under a fresh id keeps the list ids distinct. */
  lemma AddListKeepsIdsDistinct(b: Board, title: string, freshId: Id)
    requires Distinct(ListIds(b.lists)) && freshId !in ListIds(b.lists)
    ensures Distinct(ListIds(AddList(b, title, freshId).lists))
  {
    var r := AddList(b, title, freshId).lists;
    var n := |b.lists|;
    forall i, j | 0 <= i < j < |r| ensures ListIds(r)[i] != ListIds(r)[j] {
      assert r[i] == r[..n][i];
      if j < n {
        assert r[j] == r[..n][j];
        assert ListIds(b.lists)[i] != ListIds(b.lists)[j];
      } else {
        assert ListIds(b.lists)[i] == r[i].id;
      }
    }
  }

  /** The "+ Add List" button: the prompt's answer (`None` when it is
      cancelled) is added, trimmed, unless it is missing or blank. */
  function AddListFromPrompt(b: Board, answer: Option<string>, freshId: Id): (r: Board)
    ensures answer.None? || AllSpace(answer.value) ==> r == b
    ensures answer.Some? && !AllSpace(answer.value) ==>
      && r == AddList(b, Trim(answer.value), freshId)
      && r.lists[|b.lists|].title != [] && Trimmed(r.lists[|b.lists|].title)
  {
    if answer.Some? && Trim(answer.value) != [] then AddList(b, Trim(answer.value), freshId) else b
  }

  /** `renameList`: every list with the id takes the new title. */
  function RenameList(b: Board, listId: Id, title: string): (r: Board)
    ensures r.id == b.id && r.name == b.name && |r.lists| == |b.lists|
    ensures forall i :: 0 <= i < |b.lists| ==>
      && r.lists[i].id == b.lists[i].id
      && r.lists[i].tasks == b.lists[i].tasks
      && r.lists[i].title == if b.lists[i].id == listId then title else b.lists[i].title
  {
    b.(lists := MapLists(b.lists, listId, (l: TaskList) => l.(title := title)))
  }

  /** A rename keeps the list ids and every task where it was, and of two
      renames of one list only the last counts. */
  lemma {:induction false} RenameListFacts(b: Board, listId: Id, t1: string, t2: string)
    ensures ListIds(RenameList(b, listId, t1).lists) == ListIds(b.lists)
    ensures Flatten(RenameList(b, listId, t1).lists) == Flatten(b.lists)
    ensures RenameList(RenameList(b, listId, t1), listId, t2) == RenameList(b, listId, t2)
  {
    var r := RenameList(b, listId, t1);
    assert ListIds(r.lists) == ListIds(b.lists);
    SameTasksSameFlatten(r.lists, b.lists);
  }

  /** Two list sequences whose lists hold the same tasks flatten alike. */
  lemma {:induction false} SameTasksSameFlatten(a: seq<TaskList>, b: seq<TaskList>)
    requires |a| == |b|
    requires forall i :: 0 <= i < |a| ==> a[i].tasks == b[i].tasks
    ensures Flatten(a) == Flatten(b)
    decreases |a|
  {
    if a != [] {
      SameTasksSameFlatten(a[1..], b[1..]);
    }
  }

  /** `lists.filter(l => l.id !== listId)`. */
  function DeleteLists(ls: seq<TaskList>, listId: Id): (r: seq<TaskList>)
    ensures |r| <= |ls|
    decreases |ls|
  {
    if ls == [] then []
    else
      var rest := DeleteLists(ls[1..], listId);
      if ls[0].id == listId then rest else [ls[0]] + rest
  }

  /** The filter keeps exactly the lists without the id, each as often as
      it occurred. */
  lemma {:induction false} DeleteListsSpec(ls: seq<TaskList>, listId: Id)
    ensures forall l :: l in DeleteLists(ls, listId) <==> l in ls && l.id != listId
    ensures forall l :: multiset(DeleteLists(ls, listId))[l] == if l.id == listId then 0 else multiset(ls)[l]
    decreases |ls|
  {
    if ls != [] {
      DeleteListsSpec(ls[1..], listId);
      assert ls == [ls[0]] + ls[1..];
    }
  }

  /** Filtering out an id no list carries changes nothing. */
  lemma {:induction false} DeleteListsAbsent(ls: seq<TaskList>, listId: Id)
    requires forall i :: 0 <= i < |ls| ==> ls[i].id != listId
    ensures DeleteLists(ls, listId) == ls
    decreases |ls|
  {
    if ls != [] {
      DeleteListsAbsent(ls[1..], listId);
      assert ls == [ls[0]] + ls[1..];
    }
  }

  /** `deleteList`: the lists with the id go, with all their tasks; every
      other list stays. */
  function DeleteList(b: Board, listId: Id): (r: Board)
    ensures r.id == b.id && r.name == b.name
    ensures listId !in ListIds(r.lists)
    ensures forall l :: l in r.lists <==> l in b.lists && l.id != listId
  {
    var ls := DeleteLists(b.lists, listId);
    DeleteListsSpec(b.lists, listId);
    assert forall i :: 0 <= i < |ls| ==> ListIds(ls)[i] != listId by {
      forall i | 0 <= i < |ls| ensures ListIds(ls)[i] != listId {
        assert ls[i] in ls;
      }
    }
    b.(lists := ls)
  }

  /** Deleting a list keeps the remaining list ids distinct. */
  lemma DeleteListKeepsIdsDistinct(b: Board, listId: Id)
    requires Distinct(ListIds(b.lists))
    ensures Distinct(ListIds(DeleteList(b, listId).lists))
  {
    DeleteListsKeepsDistinct(b.lists, listId);
  }

  /** The id filter keeps distinct ids distinct: its result is a
      subsequence of its input. */
  lemma {:induction false} DeleteListsKeepsDistinct(ls: seq<TaskList>, listId: Id)
    requires Distinct(ListIds(ls))
    ensures Distinct(ListIds(DeleteLists(ls, listId)))
    decreases |ls|
  {
    if ls != [] {
      var tail := ls[1..];
      DistinctTail(ls);
      DeleteListsKeepsDistinct(tail, listId);
      if ls[0].id != listId {
        var rest := DeleteLists(tail, listId);
        DeleteListsSpec(tail, listId);
        assert ls[0].id !in ListIds(rest) by {
          forall k | 0 <= k < |rest| ensures ListIds(rest)[k] != ls[0].id {
            assert rest[k] in tail;
            var m :| 0 <= m < |tail| && tail[m] == rest[k];
            assert ListIds(ls)[0] != ListIds(ls)[m + 1];
          }
        }
        DistinctCons(ls[0], rest);
      }
    }
  }

  /** Dropping the first list keeps the ids distinct. */
  lemma DistinctTail(ls: seq<TaskList>)
    requires ls != [] && Distinct(ListIds(ls))
    ensures Distinct(ListIds(ls[1..]))
  {
    var tail := ls[1..];
    forall i, j | 0 <= i < j < |tail| ensures ListIds(tail)[i] != ListIds(tail)[j] {
      assert ListIds(ls)[i + 1] != ListIds(ls)[j + 1];
    }
  }

  /** A list with an id not among distinct ids can go in front. */
  lemma DistinctCons(l: TaskList, ls: seq<TaskList>)
    requires Distinct(ListIds(ls)) && l.id !in ListIds(ls)
    ensures Distinct(ListIds([l] + ls))
  {
    var r := [l] + ls;
    forall i, j | 0 <= i < j < |r| ensures ListIds(r)[i] != ListIds(r)[j] {
      assert r[j] == ls[j - 1];
      if i == 0 {
        assert ListIds(ls)[j - 1] == ls[j - 1].id;
      } else {
        assert ListIds(ls)[i - 1] != ListIds(ls)[j - 1];
      }
    }
  }

  lemma {:induction false} DeleteListsAppend(a: seq<TaskList>, b: seq<TaskList>, listId: Id)
    ensures DeleteLists(a + b, listId) == DeleteLists(a, listId) + DeleteLists(b, listId)
    decreases |a|
  {
    if a == [] {
      assert a + b == b;
    } else {
      assert (a + b)[1..] == a[1..] + b;
      DeleteListsAppend(a[1..], b, listId);
    }
  }

  /** Filtering out an id that only position `k` carries drops exactly
      that position. */
  lemma {:induction false} DeleteListsOnlyAt(ls: seq<TaskList>, k: nat, listId: Id)
    requires k < |ls| && ls[k].id == listId
    requires forall i :: 0 <= i < |ls| && i != k ==> ls[i].id != listId
    ensures DeleteLists(ls, listId) == ls[..k] + ls[k + 1..]
    decreases k
  {
    if k == 0 {
      DeleteListsAbsent(ls[1..], listId);
      assert ls[..0] + ls[1..] == ls[1..];
    } else {
      var tl := ls[1..];
      forall i | 0 <= i < |tl| && i != k - 1 ensures tl[i].id != listId {
        assert tl[i] == ls[i + 1];
      }
      DeleteListsOnlyAt(tl, k - 1, listId);
      assert tl[..k - 1] == ls[1..k] && tl[k..] == ls[k + 1..];
      assert [ls[0]] + ls[1..k] == ls[..k];
    }
  }

  /** Leaving out the list at `k` leaves out exactly its tasks. */
  lemma FlattenWithout(ls: seq<TaskList>, k: nat)
    requires k < |ls|
    ensures multiset(Flatten(ls[..k] + ls[k + 1..])) + multiset(ls[k].tasks)
         == multiset(Flatten(ls))
  {
    var pre, here, post := ls[..k], ls[k..], ls[k + 1..];
    assert ls == pre + here;
    assert here[1..] == post;
    FlattenAppend(pre, here);
    FlattenAppend(pre, post);
    assert Flatten(here) == ls[k].tasks + Flatten(post);
  }

  /** Deleting the list at `k`, when list ids are distinct, removes that
      list and exactly its tasks; the other lists keep their order. */
  lemma DeleteListCascade(b: Board, k: nat)
    requires k < |b.lists|
    requires Distinct(ListIds(b.lists))
    ensures DeleteList(b, b.lists[k].id).lists == b.lists[..k] + b.lists[k + 1..]
    ensures multiset(Flatten(DeleteList(b, b.lists[k].id).lists)) + multiset(b.lists[k].tasks)
         == multiset(Flatten(b.lists))
  {
    var ls := b.lists;
    var ids := ListIds(ls);
    forall i | 0 <= i < |ls| && i != k ensures ls[i].id != ls[k].id {
      assert ids[i] != ids[k];
    }
    DeleteListsOnlyAt(ls, k, ls[k].id);
    FlattenWithout(ls, k);
  }

  /** Adding a list under a fresh id and deleting that id restores the board. */
  lemma AddListThenDelete(b: Board, title: string, freshId: Id)
    requires freshId !in ListIds(b.lists)
    ensures DeleteList(AddList(b, title, freshId), freshId) == b
  {
    var l := TaskList(freshId, title, []);
    forall i | 0 <= i < |b.lists| ensures b.lists[i].id != freshId {
      assert ListIds(b.lists)[i] == b.lists[i].id;
    }
    DeleteListsAbsent(b.lists, freshId);
    DeleteListsAppend(b.lists, [l], freshId);
    assert [l][1..] == [];
    assert DeleteLists([l], freshId) == [];
    assert AddList(b, title, freshId).lists == b.lists + [l];
  }

  // ---------------------------------------------------------------- tasks

  /** `addTask`: `{ id: freshId, ...task }` appended to every list with the id. */
  function AddTask(b: Board, listId: Id, fields: TaskFields, freshId: Id): (r: Board)
    ensures r.id == b.id && r.name == b.name && ListIds(r.lists) == ListIds(b.lists)
    ensures forall i :: 0 <= i < |b.lists| ==>
      r.lists[i] == if b.lists[i].id == listId
                    then b.lists[i].(tasks := b.lists[i].tasks + [NewTask(freshId, fields)])
                    else b.lists[i]
  {
    var t := NewTask(freshId, fields);
    var r := b.(lists := MapLists(b.lists, listId, (l: TaskList) => l.(tasks := l.tasks + [t])));
    assert ListIds(r.lists) == ListIds(b.lists);
    r
  }

  /** With distinct list ids, adding a task to an existing list adds
      exactly that one task to the board; to a missing list, nothing. */
  lemma AddTaskCount(b: Board, listId: Id, fields: TaskFields, freshId: Id)
    requires Distinct(ListIds(b.lists))
    ensures listId in ListIds(b.lists) ==>
      multiset(Flatten(AddTask(b, listId, fields, freshId).lists))
        == multiset(Flatten(b.lists)) + multiset{NewTask(freshId, fields)}
    ensures listId !in ListIds(b.lists) ==> AddTask(b, listId, fields, freshId) == b
  {
    var t := NewTask(freshId, fields);
    var r := AddTask(b, listId, fields, freshId);
    if listId in ListIds(b.lists) {
      var k := ListIndex(b.lists, listId);
      var l' := b.lists[k].(tasks := b.lists[k].tasks + [t]);
      assert r.lists == b.lists[k := l'];
      FlattenUpdate(b.lists, k, l');
      assert multiset(l'.tasks) == multiset(b.lists[k].tasks) + multiset{t};
      Cancel(multiset(Flatten(b.lists)) + multiset{t}, multiset(Flatten(r.lists)), multiset(b.lists[k].tasks));
    } else {
      forall i | 0 <= i < |b.lists| ensures r.lists[i] == b.lists[i] {
        assert ListIds(b.lists)[i] == b.lists[i].id;
      }
    }
  }

  /** `tasks.filter(t => t.id !== taskId)`. */
  function DeleteTasks(ts: seq<Task>, taskId: Id): (r: seq<Task>)
    ensures |r| <= |ts|
    decreases |ts|
  {
    if ts == [] then []
    else
      var rest := DeleteTasks(ts[1..], taskId);
      if ts[0].id == taskId then rest else [ts[0]] + rest
  }

  /** The filter keeps exactly the tasks without the id, each as often as
      it occurred. */
  lemma {:induction false} DeleteTasksSpec(ts: seq<Task>, taskId: Id)
    ensures forall t :: t in DeleteTasks(ts, taskId) <==> t in ts && t.id != taskId
    ensures forall t :: multiset(DeleteTasks(ts, taskId))[t] == if t.id == taskId then 0 else multiset(ts)[t]
    decreases |ts|
  {
    if ts != [] {
      DeleteTasksSpec(ts[1..], taskId);
      assert ts == [ts[0]] + ts[1..];
    }
  }

  /** Filtering out an id no task carries changes nothing. */
  lemma {:induction false} DeleteTasksAbsent(ts: seq<Task>, taskId: Id)
    requires forall i :: 0 <= i < |ts| ==> ts[i].id != taskId
    ensures DeleteTasks(ts, taskId) == ts
    decreases |ts|
  {
    if ts != [] {
      DeleteTasksAbsent(ts[1..], taskId);
      assert ts == [ts[0]] + ts[1..];
    }
  }

  lemma {:induction false} DeleteTasksAppend(a: seq<Task>, b: seq<Task>, taskId: Id)
    ensures DeleteTasks(a + b, taskId) == DeleteTasks(a, taskId) + DeleteTasks(b, taskId)
    decreases |a|
  {
    if a == [] {
      assert a + b == b;
    } else {
      assert (a + b)[1..] == a[1..] + b;
      DeleteTasksAppend(a[1..], b, taskId);
    }
  }

  /** `deleteTask`: in the lists with the id, the tasks with the task id
      go; other lists are untouched. */
  function DeleteTask(b: Board, listId: Id, taskId: Id): (r: Board)
    ensures r.id == b.id && r.name == b.name && ListIds(r.lists) == ListIds(b.lists)
    ensures forall i :: 0 <= i < |b.lists| && b.lists[i].id != listId ==> r.lists[i] == b.lists[i]
    ensures forall i :: 0 <= i < |b.lists| && b.lists[i].id == listId ==>
      && r.lists[i].title == b.lists[i].title
      && r.lists[i].tasks == DeleteTasks(b.lists[i].tasks, taskId)
      && taskId !in TaskIds(r.lists[i].tasks)
      && forall t :: t in r.lists[i].tasks <==> t in b.lists[i].tasks && t.id != taskId
  {
    var r := b.(lists := MapLists(b.lists, listId, (l: TaskList) => l.(tasks := DeleteTasks(l.tasks, taskId))));
    assert ListIds(r.lists) == ListIds(b.lists);
    assert forall i :: 0 <= i < |b.lists| && b.lists[i].id == listId ==>
      && taskId !in TaskIds(r.lists[i].tasks)
      && forall t :: t in r.lists[i].tasks <==> t in b.lists[i].tasks && t.id != taskId
    by {
      forall i | 0 <= i < |b.lists| && b.lists[i].id == listId
        ensures taskId !in TaskIds(r.lists[i].tasks)
        ensures forall t :: t in r.lists[i].tasks <==> t in b.lists[i].tasks && t.id != taskId
      {
        var ts := r.lists[i].tasks;
        DeleteTasksSpec(b.lists[i].tasks, taskId);
        forall j | 0 <= j < |ts| ensures TaskIds(ts)[j] != taskId {
          assert ts[j] in ts;
        }
      }
    }
    r
  }

  /** A task added under an id no task of the board has, and then deleted
      by that id, leaves the board as it was. */
  lemma AddTaskThenDelete(b: Board, listId: Id, fields: TaskFields, freshId: Id)
    requires freshId !in TaskIds(Flatten(b.lists))
    ensures DeleteTask(AddTask(b, listId, fields, freshId), listId, freshId) == b
  {
    var t := NewTask(freshId, fields);
    var r := DeleteTask(AddTask(b, listId, fields, freshId), listId, freshId);
    forall i | 0 <= i < |b.lists| ensures r.lists[i] == b.lists[i] {
      if b.lists[i].id == listId {
        var ts := b.lists[i].tasks;
        FreshInEveryList(b.lists, freshId, i);
        forall j | 0 <= j < |ts| ensures ts[j].id != freshId {
          assert TaskIds(ts)[j] == ts[j].id;
        }
        DeleteTasksAbsent(ts, freshId);
        DeleteTasksAppend(ts, [t], freshId);
        assert [t][1..] == [];
        assert DeleteTasks([t], freshId) == [];
      }
    }
  }

  /** An id absent from all tasks is absent from each list's tasks. */
  lemma {:induction false} FreshInEveryList(ls: seq<TaskList>, id: Id, i: nat)
    requires i < |ls|
    requires id !in TaskIds(Flatten(ls))
    ensures id !in TaskIds(ls[i].tasks)
    decreases |ls|
  {
    var all := Flatten(ls);
    assert all == ls[0].tasks + Flatten(ls[1..]);
    if i == 0 {
      forall j | 0 <= j < |ls[0].tasks| ensures TaskIds(ls[0].tasks)[j] != id {
        assert TaskIds(all)[j] == ls[0].tasks[j].id;
      }
    } else {
      forall j | 0 <= j < |Flatten(ls[1..])| ensures TaskIds(Flatten(ls[1..]))[j] != id {
        assert TaskIds(all)[|ls[0].tasks| + j] == Flatten(ls[1..])[j].id;
      }
      FreshInEveryList(ls[1..], id, i - 1);
    }
  }

  /** `tasks.map(t => t.id === updated.id ? updated : t)`. */
  function UpdateTasks(ts: seq<Task>, updated: Task): (r: seq<Task>)
    ensures |r| == |ts| && TaskIds(r) == TaskIds(ts)
    ensures forall i :: 0 <= i < |ts| ==> r[i] == if ts[i].id == updated.id then updated else ts[i]
  {
    var r := seq(|ts|, i requires 0 <= i < |ts| => if ts[i].id == updated.id then updated else ts[i]);
    assert TaskIds(r) == TaskIds(ts);
    r
  }

  /** `updateTask`: in the lists with the id, the tasks with the updated
      task's id are replaced by it; counts, order and ids do not change. */
  function UpdateTask(b: Board, listId: Id, updated: Task): (r: Board)
    ensures r.id == b.id && r.name == b.name && ListIds(r.lists) == ListIds(b.lists)
    ensures forall i :: 0 <= i < |b.lists| && b.lists[i].id != listId ==> r.lists[i] == b.lists[i]
    ensures forall i :: 0 <= i < |b.lists| && b.lists[i].id == listId ==>
      r.lists[i] == b.lists[i].(tasks := UpdateTasks(b.lists[i].tasks, updated))
    ensures |Flatten(r.lists)| == |Flatten(b.lists)|
  {
    var r := b.(lists := MapLists(b.lists, listId, (l: TaskList) => l.(tasks := UpdateTasks(l.tasks, updated))));
    assert ListIds(r.lists) == ListIds(b.lists);
    SameCountsSameTotal(r.lists, b.lists);
    r
  }

  /** List sequences with the same task count list by list hold the same
      number of tasks in all. */
  lemma {:induction false} SameCountsSameTotal(a: seq<TaskList>, b: seq<TaskList>)
    requires |a| == |b|
    requires forall i :: 0 <= i < |a| ==> |a[i].tasks| == |b[i].tasks|
    ensures |Flatten(a)| == |Flatten(b)|
    decreases |a|
  {
    if a != [] {
      SameCountsSameTotal(a[1..], b[1..]);
    }
  }

  /** Updating with a task whose id the list does not hold changes
      nothing, and updating twice with the same task is updating once. */
  lemma UpdateTaskFacts(b: Board, listId: Id, updated: Task)
    ensures updated.id !in TaskIds(Flatten(b.lists)) ==> UpdateTask(b, listId, updated) == b
    ensures UpdateTask(UpdateTask(b, listId, updated), listId, updated) == UpdateTask(b, listId, updated)
  {
    if updated.id !in TaskIds(Flatten(b.lists)) {
      var r := UpdateTask(b, listId, updated);
      forall i | 0 <= i < |b.lists| ensures r.lists[i] == b.lists[i] {
        FreshInEveryList(b.lists, updated.id, i);
        var ts := b.lists[i].tasks;
        assert forall j :: 0 <= j < |ts| ==> ts[j].id != updated.id by {
          assert forall j :: 0 <= j < |ts| ==> TaskIds(ts)[j] == ts[j].id;
        }
        assert UpdateTasks(ts, updated) == ts;
      }
    }
    var once := UpdateTask(b, listId, updated);
    var twice := UpdateTask(once, listId, updated);
    forall i | 0 <= i < |b.lists| ensures twice.lists[i] == once.lists[i] {
      if b.lists[i].id == listId {
        var ts := b.lists[i].tasks;
        assert UpdateTasks(UpdateTasks(ts, updated), updated) == UpdateTasks(ts, updated);
      }
    }
  }

  // ------------------------------------------------------------ checklist

  /** `checklist.map((c, idx) => idx === itemIndex ? { ...c, done: !c.done } : c)`:
      only the item at `itemIndex` flips; an index outside the checklist
      changes nothing. */
  function ToggleItems(cl: seq<ChecklistItem>, itemIndex: int): (r: seq<ChecklistItem>)
    ensures |r| == |cl|
    ensures forall k :: 0 <= k < |cl| ==> r[k].text == cl[k].text
    ensures forall k :: 0 <= k < |cl| ==> r[k].done == (if k == itemIndex then !cl[k].done else cl[k].done)
    ensures !(0 <= itemIndex < |cl|) ==> r == cl
  {
    seq(|cl|, k requires 0 <= k < |cl| => if k == itemIndex then cl[k].(done := !cl[k].done) else cl[k])
  }

  /** `toggleChecklist`: the item flips in the tasks with the task id of
      the lists with the list id. */
  function ToggleChecklist(b: Board, listId: Id, taskId: Id, itemIndex: int): (r: Board)
    ensures r.id == b.id && r.name == b.name && ListIds(r.lists) == ListIds(b.lists)
    ensures forall i :: 0 <= i < |b.lists| && b.lists[i].id != listId ==> r.lists[i] == b.lists[i]
    ensures forall i :: 0 <= i < |b.lists| && b.lists[i].id == listId ==>
      && |r.lists[i].tasks| == |b.lists[i].tasks|
      && r.lists[i].title == b.lists[i].title
      && forall j :: 0 <= j < |b.lists[i].tasks| ==>
           r.lists[i].tasks[j] == var t := b.lists[i].tasks[j];
             if t.id == taskId then t.(checklist := ToggleItems(t.checklist, itemIndex)) else t
  {
    var r := b.(lists := MapLists(b.lists, listId, (l: TaskList) => l.(tasks := ToggleTasks(l.tasks, taskId, itemIndex))));
    assert ListIds(r.lists) == ListIds(b.lists);
    r
  }

  function ToggleTasks(ts: seq<Task>, taskId: Id, itemIndex: int): (r: seq<Task>)
    ensures |r| == |ts|
    ensures forall j :: 0 <= j < |ts| ==>
      r[j] == if ts[j].id == taskId then ts[j].(checklist := ToggleItems(ts[j].checklist, itemIndex)) else ts[j]
  {
    seq(|ts|, j requires 0 <= j < |ts| =>
      if ts[j].id == taskId then ts[j].(checklist := ToggleItems(ts[j].checklist, itemIndex)) else ts[j])
  }

  /** Toggling the same item twice gives back the board unchanged. */
  lemma ToggleTwice(b: Board, listId: Id, taskId: Id, itemIndex: int)
    ensures ToggleChecklist(ToggleChecklist(b, listId, taskId, itemIndex), listId, taskId, itemIndex) == b
  {
    var r := ToggleChecklist(ToggleChecklist(b, listId, taskId, itemIndex), listId, taskId, itemIndex);
    forall i | 0 <= i < |b.lists| ensures r.lists[i] == b.lists[i] {
      if b.lists[i].id == listId {
        var ts := b.lists[i].tasks;
        forall j | 0 <= j < |ts| ensures r.lists[i].tasks[j] == ts[j] {
          if ts[j].id == taskId {
            ToggleItemsTwice(ts[j].checklist, itemIndex);
          }
        }
      }
    }
  }

  lemma ToggleItemsTwice(cl: seq<ChecklistItem>, itemIndex: int)
    ensures ToggleItems(ToggleItems(cl, itemIndex), itemIndex) == cl
  {
    var r := ToggleItems(ToggleItems(cl, itemIndex), itemIndex);
    assert forall k :: 0 <= k < |cl| ==> r[k] == cl[k];
  }

  // ------------------------------------------------------------ drag-drop

  /** Where a drag starts or ends: a list (the droppable) and an index. */
  datatype Location = Location(listId: Id, index: nat)

  /** What the drag library guarantees of a committed drop that moves
      something: both lists exist and the source index names a task. */
  predicate DropInRange(b: Board, source: Location, dest: Location) {
    && ListIndex(b.lists, source.listId) >= 0
    && ListIndex(b.lists, dest.listId) >= 0
    && source.index < |b.lists[ListIndex(b.lists, source.listId)].tasks|
  }

  /** `onDragEnd`, as written. No destination, or the same list and
      index, changes nothing. Otherwise the task at the source index is
      spliced out of a copy of the source list's tasks and into a copy of
      the destination list's tasks, and then every list with the source's
      id takes the shortened copy and every other list with the
      destination's id takes the lengthened one. When source and
      destination are the same list the first case wins, so that list
      ends up without the task. The indices are positions in the list's
      task sequence. */
  function DragEnd(b: Board, source: Location, destination: Option<Location>): (r: Board)
    requires destination.None? || source == destination.value || DropInRange(b, source, destination.value)
    ensures destination.None? || source == destination.value ==> r == b
    ensures r.id == b.id && r.name == b.name && ListIds(r.lists) == ListIds(b.lists)
  {
    if destination.None? || source == destination.value then b
    else
      var dest := destination.value;
      var src := FindList(b.lists, source.listId).value;
      var dst := FindList(b.lists, dest.listId).value;
      var moving := src.tasks[source.index];
      b.(lists := Retask(b.lists, src.id, RemoveAt(src.tasks, source.index),
                         dst.id, InsertAt(dst.tasks, dest.index, moving)))
  }

  /** The final `lists.map` of `onDragEnd`: lists with the source id take
      `srcTasks`, other lists with the destination id take `dstTasks`. */
  function Retask(ls: seq<TaskList>, srcId: Id, srcTasks: seq<Task>, dstId: Id, dstTasks: seq<Task>)
    : (r: seq<TaskList>)
    ensures |r| == |ls| && ListIds(r) == ListIds(ls)
    ensures forall i :: 0 <= i < |ls| ==>
      r[i] == if ls[i].id == srcId then ls[i].(tasks := srcTasks)
              else if ls[i].id == dstId then ls[i].(tasks := dstTasks)
              else ls[i]
  {
    var r := seq(|ls|, i requires 0 <= i < |ls| =>
      if ls[i].id == srcId then ls[i].(tasks := srcTasks)
      else if ls[i].id == dstId then ls[i].(tasks := dstTasks)
      else ls[i]);
    assert ListIds(r) == ListIds(ls);
    r
  }

  /** With distinct ids and two different lists, `Retask` replaces
      exactly those two lists' tasks. */
  lemma RetaskTwo(ls: seq<TaskList>, ks: nat, srcTasks: seq<Task>, kd: nat, dstTasks: seq<Task>)
    requires Distinct(ListIds(ls))
    requires ks < |ls| && kd < |ls| && ks != kd
    ensures Retask(ls, ls[ks].id, srcTasks, ls[kd].id, dstTasks)
         == ls[ks := ls[ks].(tasks := srcTasks)][kd := ls[kd].(tasks := dstTasks)]
  {
    var r := Retask(ls, ls[ks].id, srcTasks, ls[kd].id, dstTasks);
    forall i | 0 <= i < |ls|
      ensures r[i] == ls[ks := ls[ks].(tasks := srcTasks)][kd := ls[kd].(tasks := dstTasks)][i]
    {
      if i != ks && i != kd {
        DistinctIds(ls, i, ks);
        DistinctIds(ls, i, kd);
      } else if i == kd {
        DistinctIds(ls, ks, kd);
      }
    }
  }

  /** With distinct ids and one list as both source and destination,
      `Retask` gives that list the source tasks. */
  lemma RetaskOne(ls: seq<TaskList>, k: nat, srcTasks: seq<Task>, dstTasks: seq<Task>)
    requires Distinct(ListIds(ls))
    requires k < |ls|
    ensures Retask(ls, ls[k].id, srcTasks, ls[k].id, dstTasks) == ls[k := ls[k].(tasks := srcTasks)]
  {
    var r := Retask(ls, ls[k].id, srcTasks, ls[k].id, dstTasks);
    forall i | 0 <= i < |ls| && i != k ensures r[i] == ls[i] {
      DistinctIds(ls, i, k);
    }
  }

  /** A drop into another list, with distinct list ids: the source list
      loses the task at the source index, the destination list has it at
      the destination index (the end, if the index is past it), every
      other list is untouched, and no task is lost or duplicated. */
  lemma DragBetweenLists(b: Board, source: Location, dest: Location)
    requires Distinct(ListIds(b.lists))
    requires DropInRange(b, source, dest) && source.listId != dest.listId
    ensures var ks := ListIndex(b.lists, source.listId);
      var kd := ListIndex(b.lists, dest.listId);
      var src := b.lists[ks];
      var dst := b.lists[kd];
      var r := DragEnd(b, source, Some(dest));
      && r.lists == b.lists[ks := src.(tasks := RemoveAt(src.tasks, source.index))]
                           [kd := dst.(tasks := InsertAt(dst.tasks, dest.index, src.tasks[source.index]))]
      && multiset(Flatten(r.lists)) == multiset(Flatten(b.lists))
      && |Flatten(r.lists)| == |Flatten(b.lists)|
  {
    var ks := ListIndex(b.lists, source.listId);
    var kd := ListIndex(b.lists, dest.listId);
    var src := b.lists[ks];
    var dst := b.lists[kd];
    var moving := src.tasks[source.index];
    var s' := src.(tasks := RemoveAt(src.tasks, source.index));
    var d' := dst.(tasks := InsertAt(dst.tasks, dest.index, moving));
    RetaskTwo(b.lists, ks, s'.tasks, kd, d'.tasks);
    var r := DragEnd(b, source, Some(dest));
    MoveKeepsTasks(b.lists, ks, s', kd, d', moving);
    assert |multiset(Flatten(r.lists))| == |multiset(Flatten(b.lists))|;
  }

  /** Replacing two different lists, one by a list with one task `m`
      fewer and the other by a list with `m` more, keeps the board's
      tasks. */
  lemma MoveKeepsTasks(ls: seq<TaskList>, ks: nat, sl: TaskList, kd: nat, dl: TaskList, m: Task)
    requires ks < |ls| && kd < |ls| && ks != kd
    requires multiset(sl.tasks) + multiset{m} == multiset(ls[ks].tasks)
    requires multiset(dl.tasks) == multiset(ls[kd].tasks) + multiset{m}
    ensures multiset(Flatten(ls[ks := sl][kd := dl])) == multiset(Flatten(ls))
  {
    var mid := ls[ks := sl];
    FlattenUpdate(ls, ks, sl);
    FlattenUpdate(mid, kd, dl);
    assert mid[kd] == ls[kd];
    MovedConserves(multiset(Flatten(ls)), multiset(Flatten(mid)), multiset(Flatten(mid[kd := dl])),
      multiset(ls[ks].tasks), multiset(sl.tasks), multiset(ls[kd].tasks), multiset(dl.tasks), m);
  }

  /** A drop at another index of the same list, with distinct list ids:
      the list ends up with the task removed and not re-inserted, so the
      board holds one task fewer. */
  lemma DragWithinListLosesTask(b: Board, source: Location, dest: Location)
    requires Distinct(ListIds(b.lists))
    requires DropInRange(b, source, dest) && source.listId == dest.listId && source.index != dest.index
    ensures var k := ListIndex(b.lists, source.listId);
      var src := b.lists[k];
      var r := DragEnd(b, source, Some(dest));
      && r.lists == b.lists[k := src.(tasks := RemoveAt(src.tasks, source.index))]
      && multiset(Flatten(r.lists)) + multiset{src.tasks[source.index]} == multiset(Flatten(b.lists))
      && |Flatten(r.lists)| == |Flatten(b.lists)| - 1
  {
    var k := ListIndex(b.lists, source.listId);
    var src := b.lists[k];
    var s' := src.(tasks := RemoveAt(src.tasks, source.index));
    RetaskOne(b.lists, k, s'.tasks, InsertAt(src.tasks, dest.index, src.tasks[source.index]));
    var r := DragEnd(b, source, Some(dest));
    FlattenUpdate(b.lists, k, s');
    RemovedOne(multiset(Flatten(b.lists)), multiset(Flatten(r.lists)),
      multiset(src.tasks), multiset(s'.tasks), src.tasks[source.index]);
    assert |multiset(Flatten(r.lists)) + multiset{src.tasks[source.index]}| == |multiset(Flatten(b.lists))|;
  }

  /** The bookkeeping of a move: one task leaves the source tasks `s`
      and joins the destination tasks `d`, while `f0`, `f1`, `f2` are
      the board's tasks before, in between and after. */
  lemma MovedConserves<T>(f0: multiset<T>, f1: multiset<T>, f2: multiset<T>,
      s: multiset<T>, s': multiset<T>, d: multiset<T>, d': multiset<T>, m: T)
    requires f1 + s == f0 + s' && f2 + d == f1 + d'
    requires s' + multiset{m} == s && d' == d + multiset{m}
    ensures f2 == f0
  {
    forall x ensures f2[x] == f0[x] {
      assert (f1 + s)[x] == (f0 + s')[x];
      assert (f2 + d)[x] == (f1 + d')[x];
      assert (s' + multiset{m})[x] == s[x];
    }
  }

  /** One element `m` of `s` is dropped, giving `s'`: the whole `f0`
      goes down by exactly `m`. */
  lemma RemovedOne<T>(f0: multiset<T>, f1: multiset<T>, s: multiset<T>, s': multiset<T>, m: T)
    requires f1 + s == f0 + s' && s' + multiset{m} == s
    ensures f1 + multiset{m} == f0
  {
    forall x ensures (f1 + multiset{m})[x] == f0[x] {
      assert (f1 + s)[x] == (f0 + s')[x];
      assert (s' + multiset{m})[x] == s[x];
    }
  }

  lemma Cancel<T>(f0: multiset<T>, f1: multiset<T>, s: multiset<T>)
    requires f1 + s == f0 + s
    ensures f1 == f0
  {
    forall x ensures f1[x] == f0[x] {
      assert (f1 + s)[x] == (f0 + s)[x];
    }
  }

  /** Two positions of a list sequence with distinct ids hold different ids. */
  lemma DistinctIds(ls: seq<TaskList>, i: nat, j: nat)
    requires Distinct(ListIds(ls))
    requires i < |ls| && j < |ls| && i != j
    ensures ls[i].id != ls[j].id
  {
    if i < j {
      assert ListIds(ls)[i] != ListIds(ls)[j];
    } else {
      assert ListIds(ls)[j] != ListIds(ls)[i];
    }
  }

  /** The drop as evidently intended: like `DragEnd`, except that within
      one list the task is inserted into the list it was removed from,
      at the destination index of the shortened sequence. */
  function DragEndIntended(b: Board, source: Location, destination: Option<Location>): (r: Board)
    requires destination.None? || source == destination.value || DropInRange(b, source, destination.value)
    ensures destination.None? || source == destination.value ==> r == b
    ensures r.id == b.id && r.name == b.name && ListIds(r.lists) == ListIds(b.lists)
  {
    if destination.None? || source == destination.value then b
    else
      var dest := destination.value;
      var src := FindList(b.lists, source.listId).value;
      var dst := FindList(b.lists, dest.listId).value;
      var moving := src.tasks[source.index];
      var newSrcTasks := RemoveAt(src.tasks, source.index);
      var ls := if src.id == dst.id then
          MapLists(b.lists, src.id, (l: TaskList) => l.(tasks := InsertAt(newSrcTasks, dest.index, moving)))
        else
          Retask(b.lists, src.id, newSrcTasks, dst.id, InsertAt(dst.tasks, dest.index, moving));
      assert ListIds(ls) == ListIds(b.lists);
      b.(lists := ls)
  }

  /** A reorder within one list, done as intended: the moved task lands at
      the destination index (the end, if past it), the other tasks keep
      their relative order, and the board keeps every task. */
  lemma DragIntendedWithinList(b: Board, source: Location, dest: Location)
    requires Distinct(ListIds(b.lists))
    requires DropInRange(b, source, dest) && source.listId == dest.listId && source.index != dest.index
    ensures var k := ListIndex(b.lists, source.listId);
      var ts := b.lists[k].tasks;
      var r := DragEndIntended(b, source, Some(dest));
      var p := if dest.index < |ts| then dest.index else |ts| - 1;
      && |r.lists[k].tasks| == |ts|
      && r.lists[k].tasks[p] == ts[source.index]
      && RemoveAt(r.lists[k].tasks, p) == RemoveAt(ts, source.index)
      && multiset(Flatten(r.lists)) == multiset(Flatten(b.lists))
  {
    var k := ListIndex(b.lists, source.listId);
    var src := b.lists[k];
    var ts := src.tasks;
    var newTasks := InsertAt(RemoveAt(ts, source.index), dest.index, ts[source.index]);
    var rl := DragEndIntended(b, source, Some(dest)).lists;
    IntendedWithinShape(b, source, dest);
    assert rl == b.lists[k := src.(tasks := newTasks)];
    assert rl[k].tasks == newTasks;
    Reordered(ts, source.index, dest.index);
    ReplaceKeepsTasks(b.lists, k, src.(tasks := newTasks));
  }

  /** Replacing a list by one holding the same tasks in any order keeps
      the board's tasks. */
  lemma ReplaceKeepsTasks(ls: seq<TaskList>, k: nat, l: TaskList)
    requires k < |ls| && multiset(l.tasks) == multiset(ls[k].tasks)
    ensures multiset(Flatten(ls[k := l])) == multiset(Flatten(ls))
  {
    FlattenUpdate(ls, k, l);
    Cancel(multiset(Flatten(ls)), multiset(Flatten(ls[k := l])), multiset(l.tasks));
  }

  /** Within one list, the intended drop replaces that list's tasks only. */
  lemma IntendedWithinShape(b: Board, source: Location, dest: Location)
    requires Distinct(ListIds(b.lists))
    requires DropInRange(b, source, dest) && source.listId == dest.listId && source.index != dest.index
    ensures var k := ListIndex(b.lists, source.listId);
      var ts := b.lists[k].tasks;
      DragEndIntended(b, source, Some(dest)).lists
        == b.lists[k := b.lists[k].(tasks := InsertAt(RemoveAt(ts, source.index), dest.index, ts[source.index]))]
  {
    var k := ListIndex(b.lists, source.listId);
    var src := b.lists[k];
    var ts := src.tasks;
    var newTasks := InsertAt(RemoveAt(ts, source.index), dest.index, ts[source.index]);
    assert FindList(b.lists, source.listId).value == src;
    assert FindList(b.lists, dest.listId).value == src;
    MapListsAt(b.lists, src.id, (l: TaskList) => l.(tasks := newTasks), k);
  }

  /** Taking the element at `i` out and putting it back before `d` of the
      shortened sequence: it lands at `d` (the last place, if `d` is past
      it), the others keep their order, and nothing is lost. */
  lemma Reordered<T>(ts: seq<T>, i: nat, d: nat)
    requires i < |ts|
    ensures var n := InsertAt(RemoveAt(ts, i), d, ts[i]);
      var p := if d < |ts| then d else |ts| - 1;
      && |n| == |ts| && n[p] == ts[i]
      && RemoveAt(n, p) == RemoveAt(ts, i)
      && multiset(n) == multiset(ts)
  {
    var shorter := RemoveAt(ts, i);
    var p := if d < |ts| then d else |ts| - 1;
    assert p == if d <= |shorter| then d else |shorter|;
    RemoveInserted(shorter, p, ts[i]);
    assert InsertAt(shorter, d, ts[i]) == InsertAt(shorter, p, ts[i]);
  }

  /** A drop into another list is the same in both versions. */
  lemma DragIntendedBetweenLists(b: Board, source: Location, dest: Location)
    requires DropInRange(b, source, dest) && source.listId != dest.listId
    ensures DragEndIntended(b, source, Some(dest)) == DragEnd(b, source, Some(dest))
  {
  }

  /** The drag indices are positions in the list's own task order, while
      the cards are shown in the projection's sorted order. For an undated
      task `a` stored before a dated task `b`, the card shown first is
      `b`, yet dragging the first card into an empty list moves `a`. */
  lemma DragIndexIsNotVisibleIndex(a: Task, t: Task, l1: Id, l2: Id)
    requires a.dueDate.NoDate? && t.dueDate.OnDay? && l1 != l2
    ensures var from := TaskList(l1, "", [a, t]);
      var board := Board("board", "", [from, TaskList(l2, "", [])]);
      && ListColumn.Visible(from, "")[0] == t
      && DropInRange(board, Location(l1, 0), Location(l2, 0))
      && DragEnd(board, Location(l1, 0), Some(Location(l2, 0))).lists[1].tasks == [a]
  {
    var from := TaskList(l1, "", [a, t]);
    var ts := [a, t];
    assert ts[..1] == [a];
    assert ListColumn.SortByDue([a]) == [a];
    assert ListColumn.Visible(from, "") == [t, a];
    var board := Board("board", "", [from, TaskList(l2, "", [])]);
    assert ListIndex(board.lists, l1) == 0;
    assert ListIndex(board.lists[1..], l2) == 0;
    assert ListIndex(board.lists, l2) == 1;
  }

  // --------------------------------------------------------------- editor

  /** The editor's fields: title, description, label, due date and the
      checklist as text, one item per line. */
  datatype EditorState = EditorState(
    title: string,
    description: string,
    taskLabel: string,
    dueDate: DueDate,
    checklistText: string)

  function Texts(cl: seq<ChecklistItem>): (r: seq<string>)
    ensures |r| == |cl| && forall k {:trigger r[k]} :: 0 <= k < |cl| ==> r[k] == cl[k].text
  {
    seq(|cl|, k requires 0 <= k < |cl| => cl[k].text)
  }

  /** The editor opened on a task: the text fields start from the task,
      a missing label (`""`) shows as "none", and the checklist is its
      item texts joined by newlines. */
  function OpenEditor(initial: Task): (e: EditorState)
    ensures e.title == initial.title && e.description == initial.description
    ensures e.taskLabel == if initial.taskLabel == "" then "none" else initial.taskLabel
    ensures e.dueDate == initial.dueDate
    ensures e.checklistText == Join(Texts(initial.checklist), '\n')
  {
    EditorState(initial.title, initial.description,
      if initial.taskLabel == "" then "none" else initial.taskLabel,
      initial.dueDate, Join(Texts(initial.checklist), '\n'))
  }

  /** A checklist item as the editor produces it: non-empty, trimmed, on
      one line. */
  predicate WellFormedItem(c: ChecklistItem) {
    c.text != [] && Trimmed(c.text) && '\n' !in c.text
  }

  /** The lines' items: each line trimmed, blank lines dropped, every
      item not done. */
  function Items(lines: seq<string>): (r: seq<ChecklistItem>)
    ensures |r| <= |lines|
  {
    if lines == [] then [] else LineItem(lines[0]) + Items(lines[1..])
  }

  /** The item of one line: none for a blank line, else the trimmed text,
      not done. */
  function LineItem(line: string): (r: seq<ChecklistItem>)
    ensures |r| <= 1
    ensures r == [] <==> AllSpace(line)
    ensures r != [] ==> !r[0].done && r[0].text == Trim(line)
  {
    var t := Trim(line);
    if t == [] then [] else [ChecklistItem(t, false)]
  }

  /** A line without a newline gives at most one item, well formed and not
      done. */
  lemma LineItemWellFormed(line: string)
    requires '\n' !in line
    ensures |LineItem(line)| <= 1
    ensures forall k :: 0 <= k < |LineItem(line)| ==> !LineItem(line)[k].done && WellFormedItem(LineItem(line)[k])
  {
    TrimWithin(line);
  }

  /** The stages of `handleSave`'s parse, one by one: `.map(s => s.trim())`, */
  function TrimAll(lines: seq<string>): (r: seq<string>)
    ensures |r| == |lines|
    ensures forall k :: 0 <= k < |lines| ==> r[k] == Trim(lines[k])
  {
    seq(|lines|, k requires 0 <= k < |lines| => Trim(lines[k]))
  }

  /** `.filter(Boolean)`, which keeps the non-empty strings in order, */
  function NonEmpty(ss: seq<string>): (r: seq<string>)
    ensures forall s :: s in r <==> s in ss && s != []
    ensures |r| <= |ss|
  {
    if ss == [] then []
    else
      assert ss == [ss[0]] + ss[1..];
      (if ss[0] == [] then [] else [ss[0]]) + NonEmpty(ss[1..])
  }

  /** and `.map(s => ({ text: s, done: false }))`. */
  function AsItems(ts: seq<string>): (r: seq<ChecklistItem>)
    ensures |r| == |ts|
    ensures forall k :: 0 <= k < |ts| ==> r[k] == ChecklistItem(ts[k], false)
  {
    seq(|ts|, k requires 0 <= k < |ts| => ChecklistItem(ts[k], false))
  }

  /** Making items distributes over concatenation. */
  lemma AsItemsAppend(a: seq<string>, b: seq<string>)
    ensures AsItems(a + b) == AsItems(a) + AsItems(b)
  {
    assert forall k :: 0 <= k < |a + b| ==> AsItems(a + b)[k] == (AsItems(a) + AsItems(b))[k];
  }

  /** One step of the staged parse on a first line. */
  lemma PipelineStep(lines: seq<string>)
    requires lines != []
    ensures AsItems(NonEmpty(TrimAll(lines)))
         == LineItem(lines[0]) + AsItems(NonEmpty(TrimAll(lines[1..])))
  {
    var t := TrimAll(lines);
    assert t[1..] == TrimAll(lines[1..]);
    var head := if t[0] == [] then [] else [t[0]];
    assert NonEmpty(t) == head + NonEmpty(t[1..]);
    AsItemsAppend(head, NonEmpty(t[1..]));
    assert AsItems(head) == LineItem(lines[0]);
  }

  /** The line-by-line parse equals the staged one for any lines: every
      line trimmed, the empty results dropped, the rest made items not
      done, in line order. */
  lemma {:induction false} ItemsArePipeline(lines: seq<string>)
    ensures Items(lines) == AsItems(NonEmpty(TrimAll(lines)))
    decreases |lines|
  {
    if lines != [] {
      ItemsArePipeline(lines[1..]);
      PipelineStep(lines);
    }
  }

  /** Parsing lines one after the other parses their concatenation. */
  lemma {:induction false} ItemsAppend(a: seq<string>, b: seq<string>)
    ensures Items(a + b) == Items(a) + Items(b)
    decreases |a|
  {
    if a == [] {
      assert a + b == b;
    } else {
      assert (a + b)[1..] == a[1..] + b;
      ItemsAppend(a[1..], b);
    }
  }

  /** One line parses to its own item. */
  lemma ItemsSingle(line: string)
    ensures Items([line]) == LineItem(line)
  {
    assert [line][1..] == [];
  }

  /** The checklist parse of `handleSave`: split on "\n", trim, drop
      empty lines, mark every item not done. */
  function ParseChecklist(text: string): (r: seq<ChecklistItem>)
    ensures r == AsItems(NonEmpty(TrimAll(Split(text, '\n'))))
    ensures forall k :: 0 <= k < |r| ==> !r[k].done && WellFormedItem(r[k])
  {
    var lines := Split(text, '\n');
    ItemsWellFormed(lines);
    ItemsArePipeline(lines);
    Items(lines)
  }

  /** An item is saved exactly when it is, not done, the non-empty trim of
      one of the text's lines. */
  lemma ParseChecklistItems(text: string)
    ensures forall c: ChecklistItem :: c in ParseChecklist(text) <==>
      !c.done && c.text != [] && c.text in TrimAll(Split(text, '\n'))
  {
    var ne := NonEmpty(TrimAll(Split(text, '\n')));
    var r := ParseChecklist(text);
    forall c | c in r ensures !c.done && c.text != [] && c.text in TrimAll(Split(text, '\n')) {
      var k :| 0 <= k < |r| && r[k] == c;
      assert ne[k] in ne;
    }
    forall c: ChecklistItem | !c.done && c.text != [] && c.text in TrimAll(Split(text, '\n')) ensures c in r {
      assert c.text in ne;
      var k :| 0 <= k < |ne| && ne[k] == c.text;
      assert r[k] == c;
    }
  }

  /** The padded line " a" is saved as the item "a". */
  lemma ParsePadded()
    ensures ParseChecklist(" a") == [ChecklistItem("a", false)]
  {
    PaddedLine();
    ItemsSingle(" a");
  }

  /** The text " a" is one line, whose trim is "a". */
  lemma PaddedLine()
    ensures Split(" a", '\n') == [" a"]
    ensures Trim(" a") == "a"
  {
    assert IndexOf(" a", '\n') == -1;
    assert " a"[1..] == "a";
    assert Trim(" a") == Trim("a");
    TrimmedIsFixed("a");
  }

  /** Items made from lines without a newline are well formed and not
      done, and there are at most as many as lines. */
  lemma {:induction false} ItemsWellFormed(lines: seq<string>)
    requires forall k :: 0 <= k < |lines| ==> '\n' !in lines[k]
    ensures |Items(lines)| <= |lines|
    ensures forall k :: 0 <= k < |Items(lines)| ==> !Items(lines)[k].done && WellFormedItem(Items(lines)[k])
    decreases |lines|
  {
    if lines != [] {
      ItemsWellFormed(lines[1..]);
      LineItemWellFormed(lines[0]);
    }
  }

  /** One step of `Items` on a well-formed first text. */
  lemma ItemsStep(cl: seq<ChecklistItem>)
    requires cl != [] && WellFormedItem(cl[0])
    ensures Items(Texts(cl)) == [cl[0].(done := false)] + Items(Texts(cl[1..]))
  {
    var lines := Texts(cl);
    assert lines[1..] == Texts(cl[1..]);
    TrimmedIsFixed(cl[0].text);
  }

  /** The items of well-formed texts are those texts, not done. */
  lemma {:induction false} ItemsOfTexts(cl: seq<ChecklistItem>)
    requires forall k :: 0 <= k < |cl| ==> WellFormedItem(cl[k])
    ensures Items(Texts(cl)) == ResetDone(cl)
    decreases |cl|
  {
    if cl == [] {
      assert Texts(cl) == [];
    } else {
      ItemsOfTexts(cl[1..]);
      ItemsOfTextsStep(cl);
    }
  }

  /** The step of `ItemsOfTexts`, given the claim for the tail. */
  lemma ItemsOfTextsStep(cl: seq<ChecklistItem>)
    requires cl != [] && WellFormedItem(cl[0])
    requires Items(Texts(cl[1..])) == ResetDone(cl[1..])
    ensures Items(Texts(cl)) == ResetDone(cl)
  {
    ItemsStep(cl);
    ResetDoneStep(cl);
  }

  /** One step of `ResetDone`. */
  lemma ResetDoneStep(cl: seq<ChecklistItem>)
    requires cl != []
    ensures ResetDone(cl) == [cl[0].(done := false)] + ResetDone(cl[1..])
  {
    var rd := ResetDone(cl);
    assert rd[1..] == ResetDone(cl[1..]);
    assert rd == [rd[0]] + rd[1..];
  }

  /** The checklist with every `done` flag cleared. */
  function ResetDone(cl: seq<ChecklistItem>): (r: seq<ChecklistItem>)
    ensures |r| == |cl|
    ensures forall k {:trigger r[k]} :: 0 <= k < |cl| ==> r[k] == ChecklistItem(cl[k].text, false)
  {
    seq(|cl|, k requires 0 <= k < |cl| => cl[k].(done := false))
  }

  /** Editing a well-formed checklist's text without changes and saving
      gives the same items, all marked not done: the editor drops the
      `done` flags. */
  lemma ChecklistRoundTrip(cl: seq<ChecklistItem>)
    requires forall k :: 0 <= k < |cl| ==> WellFormedItem(cl[k])
    ensures ParseChecklist(Join(Texts(cl), '\n')) == ResetDone(cl)
  {
    if cl == [] {
      assert Split("", '\n') == [""];
      assert Items([""]) == [];
    } else {
      SplitJoin(Texts(cl), '\n');
      ItemsOfTexts(cl);
    }
  }

  /** Saving twice yields the same checklist as saving once. */
  lemma ParseChecklistStable(text: string)
    ensures ParseChecklist(Join(Texts(ParseChecklist(text)), '\n')) == ParseChecklist(text)
  {
    var cl := ParseChecklist(text);
    ChecklistRoundTrip(cl);
    assert ResetDone(cl) == cl;
  }

  /** `handleSave`: the task's other fields (its id first) are kept, the
      title is trimmed, the rest comes from the editor, and the checklist
      is the parse of the checklist text. */
  function HandleSave(initial: Task, e: EditorState): (r: Task)
    ensures r.id == initial.id
    ensures r.title == Trim(e.title) && Trimmed(r.title)
    ensures r.description == e.description && r.taskLabel == e.taskLabel && r.dueDate == e.dueDate
    ensures r.checklist == ParseChecklist(e.checklistText)
    ensures forall k :: 0 <= k < |r.checklist| ==> !r.checklist[k].done && WellFormedItem(r.checklist[k])
  {
    initial.(title := Trim(e.title), description := e.description, taskLabel := e.taskLabel,
             dueDate := e.dueDate, checklist := ParseChecklist(e.checklistText))
  }

  /** Opening the editor and saving at once keeps the id, description and
      due date, trims the title, fills in the label "none" when it was
      missing, and keeps a well-formed checklist's texts while clearing
      every `done` flag. */
  lemma SaveUnedited(initial: Task)
    requires forall k :: 0 <= k < |initial.checklist| ==> WellFormedItem(initial.checklist[k])
    ensures HandleSave(initial, OpenEditor(initial))
         == initial.(title := Trim(initial.title),
                     taskLabel := if initial.taskLabel == "" then "none" else initial.taskLabel,
                     checklist := ResetDone(initial.checklist))
  {
    ChecklistRoundTrip(initial.checklist);
  }
}
