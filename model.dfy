/** The board data: boards hold ordered lists, lists hold ordered tasks,
    tasks hold an ordered checklist. Every value here is immutable; an
    edit builds a new value. Also the lookups by id that the code does
    with `Array.prototype.find` and `findIndex`, and the flattening used
    to count and track tasks across lists. */
module BoardModel {

  datatype Option<T> = None | Some(value: T)

  /** Ids are strings such as "board-1700000000000" or "list-todo". */
  type Id = string

  /** A task's due date. The code keeps a date string and treats the empty
      string as "no date"; the model keeps the calendar day as a number. */
  datatype DueDate = NoDate | OnDay(day: int)

  datatype ChecklistItem = ChecklistItem(text: string, done: bool)

  /** A task. An absent description or label (`taskLabel`) reads as "" wherever the
      code writes `|| ""`. */
  datatype Task = Task(
    id: Id,
    title: string,
    description: string,
    taskLabel: string,
    dueDate: DueDate,
    checklist: seq<ChecklistItem>)

  /** The fields a new task is submitted with; the id is added on creation. */
  datatype TaskFields = TaskFields(
    title: string,
    description: string,
    taskLabel: string,
    dueDate: DueDate,
    checklist: seq<ChecklistItem>)

  datatype TaskList = TaskList(id: Id, title: string, tasks: seq<Task>)

  datatype Board = Board(id: Id, name: string, lists: seq<TaskList>)

  /** `{ id, ...fields }`: a task built from submitted fields and an id. */
  function NewTask(id: Id, f: TaskFields): (t: Task)
    ensures t.id == id
    ensures TaskFields(t.title, t.description, t.taskLabel, t.dueDate, t.checklist) == f
  {
    Task(id, f.title, f.description, f.taskLabel, f.dueDate, f.checklist)
  }

  /** No two positions of `s` hold the same value. */
  predicate Distinct<T(==)>(s: seq<T>) {
    forall i, j :: 0 <= i < j < |s| ==> s[i] != s[j]
  }

  function BoardIds(bs: seq<Board>): (r: seq<Id>)
    ensures |r| == |bs| && forall i :: 0 <= i < |bs| ==> r[i] == bs[i].id
  {
    seq(|bs|, i requires 0 <= i < |bs| => bs[i].id)
  }

  function ListIds(ls: seq<TaskList>): (r: seq<Id>)
    ensures |r| == |ls| && forall i :: 0 <= i < |ls| ==> r[i] == ls[i].id
  {
    seq(|ls|, i requires 0 <= i < |ls| => ls[i].id)
  }

  function TaskIds(ts: seq<Task>): (r: seq<Id>)
    ensures |r| == |ts| && forall i :: 0 <= i < |ts| ==> r[i] == ts[i].id
  {
    seq(|ts|, i requires 0 <= i < |ts| => ts[i].id)
  }

  lemma BoardIdsCons(bs: seq<Board>)
    requires bs != []
    ensures BoardIds(bs) == [bs[0].id] + BoardIds(bs[1..])
  {
    assert forall i :: 0 <= i < |bs| - 1 ==> BoardIds(bs)[i + 1] == BoardIds(bs[1..])[i];
  }

  lemma ListIdsCons(ls: seq<TaskList>)
    requires ls != []
    ensures ListIds(ls) == [ls[0].id] + ListIds(ls[1..])
  {
    assert forall i :: 0 <= i < |ls| - 1 ==> ListIds(ls)[i + 1] == ListIds(ls[1..])[i];
  }

  /** `boards.findIndex(b => b.id === id)`: the first position holding
      that id, or -1 when no board has it. */
  function BoardIndex(bs: seq<Board>, id: Id): (r: int)
    ensures -1 <= r < |bs|
    ensures r == -1 <==> id !in BoardIds(bs)
    ensures r >= 0 ==> bs[r].id == id && forall j :: 0 <= j < r ==> bs[j].id != id
  {
    if bs == [] then -1
    else if bs[0].id == id then 0
    else
      var r := BoardIndex(bs[1..], id);
      BoardIdsCons(bs);
      if r == -1 then -1
      else
        assert forall j :: 0 <= j < r + 1 ==> bs[j].id != id by {
          forall j | 0 <= j < r + 1 ensures bs[j].id != id {
            if j > 0 {
              assert bs[j] == bs[1..][j - 1];
            }
          }
        }
        r + 1
  }

  /** `findIndex` returns `p` when `p` holds the id and no earlier board does. */
  lemma BoardIndexIs(bs: seq<Board>, id: Id, p: nat)
    requires p < |bs| && bs[p].id == id
    requires forall j :: 0 <= j < p ==> bs[j].id != id
    ensures BoardIndex(bs, id) == p
  {
  }

  /** `lists.findIndex(l => l.id === id)`, as for boards. */
  function ListIndex(ls: seq<TaskList>, id: Id): (r: int)
    ensures -1 <= r < |ls|
    ensures r == -1 <==> id !in ListIds(ls)
    ensures r >= 0 ==> ls[r].id == id && forall j :: 0 <= j < r ==> ls[j].id != id
  {
    if ls == [] then -1
    else if ls[0].id == id then 0
    else
      var r := ListIndex(ls[1..], id);
      ListIdsCons(ls);
      if r == -1 then -1
      else
        assert forall j :: 0 <= j < r + 1 ==> ls[j].id != id by {
          forall j | 0 <= j < r + 1 ensures ls[j].id != id {
            if j > 0 {
              assert ls[j] == ls[1..][j - 1];
            }
          }
        }
        r + 1
  }

  /** `boards.find(b => b.id === id) || null`: the first board with the id. */
  function FindBoard(bs: seq<Board>, id: Id): (r: Option<Board>)
    ensures r.None? <==> id !in BoardIds(bs)
    ensures r.Some? ==> r.value in bs && r.value.id == id
    ensures r.Some? ==> forall i :: 0 <= i < |bs| && bs[i].id == id ==> r.value == bs[BoardIndex(bs, id)]
  {
    var i := BoardIndex(bs, id);
    if i == -1 then None else Some(bs[i])
  }

  /** `lists.find(l => l.id === id)`: the first list with the id. */
  function FindList(ls: seq<TaskList>, id: Id): (r: Option<TaskList>)
    ensures r.None? <==> id !in ListIds(ls)
    ensures r.Some? ==> r.value in ls && r.value.id == id
    ensures r.Some? ==> r.value == ls[ListIndex(ls, id)]
  {
    var i := ListIndex(ls, id);
    if i == -1 then None else Some(ls[i])
  }

  /** When ids are distinct, the position found is the only one with the id. */
  lemma ListIndexUnique(ls: seq<TaskList>, id: Id, k: int)
    requires Distinct(ListIds(ls))
    requires 0 <= k < |ls| && ls[k].id == id
    ensures ListIndex(ls, id) == k
  {
    var r := ListIndex(ls, id);
    assert ListIds(ls)[r] == ListIds(ls)[k];
  }

  /** All tasks of a list sequence, list by list, in order. */
  function Flatten(ls: seq<TaskList>): (r: seq<Task>)
    ensures ls == [] ==> r == []
    ensures ls != [] ==> ls[0].tasks <= r
  {
    if ls == [] then [] else ls[0].tasks + Flatten(ls[1..])
  }

  /** Flattening distributes over concatenation of list sequences. */
  lemma {:induction false} FlattenAppend(a: seq<TaskList>, b: seq<TaskList>)
    ensures Flatten(a + b) == Flatten(a) + Flatten(b)
    decreases |a|
  {
    if a == [] {
      assert a + b == b;
    } else {
      assert (a + b)[1..] == a[1..] + b;
      FlattenAppend(a[1..], b);
    }
  }

  /** Replacing list `k` swaps its tasks for the new list's tasks in the
      overall multiset of tasks and leaves all other tasks alone. */
  lemma {:induction false} FlattenUpdate(ls: seq<TaskList>, k: int, l: TaskList)
    requires 0 <= k < |ls|
    ensures multiset(Flatten(ls[k := l])) + multiset(ls[k].tasks)
         == multiset(Flatten(ls)) + multiset(l.tasks)
    decreases |ls|
  {
    var ls' := ls[k := l];
    assert Flatten(ls') == ls'[0].tasks + Flatten(ls'[1..]);
    assert Flatten(ls) == ls[0].tasks + Flatten(ls[1..]);
    if k == 0 {
      assert ls'[1..] == ls[1..];
    } else {
      assert ls'[1..] == ls[1..][k - 1 := l];
      FlattenUpdate(ls[1..], k - 1, l);
      assert ls[1..][k - 1] == ls[k];
      assert ls'[0] == ls[0];
      calc {
        multiset(Flatten(ls')) + multiset(ls[k].tasks);
        multiset(ls[0].tasks) + (multiset(Flatten(ls[1..][k - 1 := l])) + multiset(ls[k].tasks));
        multiset(ls[0].tasks) + (multiset(Flatten(ls[1..])) + multiset(l.tasks));
        multiset(Flatten(ls)) + multiset(l.tasks);
      }
    }
  }
}
