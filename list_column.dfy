/** One list column (trello-clone/src/components/ListColumn.js): the
    projection `visible` that filters a list's tasks by the search query
    and sorts them by due date, and the input guards of the add-task box
    and the rename box. */
module ListColumn {
  import opened BoardModel
  import opened Text

  /** The normalised query: `(filterQuery || "").trim().toLowerCase()`. */
  function Query(filterQuery: string): (q: string)
    ensures q == [] <==> AllSpace(filterQuery)
  {
    var t := Trim(filterQuery);
    ToLowerIdempotent(t);
    ToLower(t)
  }

  /** The text a task is searched in:
      `${title} ${description || ""} ${label || ""}`, lower-cased. */
  function Haystack(t: Task): (r: string)
    ensures r == ToLower(t.title) + " " + ToLower(t.description) + " " + ToLower(t.taskLabel)
    ensures |r| == |t.title| + |t.description| + |t.taskLabel| + 2
    ensures forall k :: 0 <= k < |r| ==> !('A' <= r[k] <= 'Z')
  {
    ToLowerAppend(t.title + " " + t.description + " ", t.taskLabel);
    ToLowerAppend(t.title + " " + t.description, " ");
    ToLowerAppend(t.title + " ", t.description);
    ToLowerAppend(t.title, " ");
    assert ToLower(" ") == " ";
    ToLower(t.title + " " + t.description + " " + t.taskLabel)
  }

  /** The filter's predicate: the query occurs in the task's haystack. */
  predicate Matches(t: Task, q: string)
    ensures q == [] ==> Matches(t, q)
    ensures |q| > |Haystack(t)| ==> !Matches(t, q)
  {
    assert q == [] ==> OccursAt(Haystack(t), q, 0);
    Contains(Haystack(t), q)
  }

  /** `tasks.filter(t => hay.includes(q))`. */
  function FilterTasks(ts: seq<Task>, q: string): (r: seq<Task>)
    ensures forall t :: t in r <==> t in ts && Matches(t, q)
    ensures forall t :: multiset(r)[t] == if Matches(t, q) then multiset(ts)[t] else 0
    ensures |r| <= |ts|
  {
    if ts == [] then []
    else
      var rest := FilterTasks(ts[1..], q);
      assert ts == [ts[0]] + ts[1..];
      if Matches(ts[0], q) then [ts[0]] + rest else rest
  }

  /** With the empty query every task matches, so the filter keeps everything. */
  lemma FilterEmptyQuery(ts: seq<Task>)
    ensures FilterTasks(ts, "") == ts
  {
    if ts != [] {
      assert OccursAt(Haystack(ts[0]), "", 0);
      FilterEmptyQuery(ts[1..]);
      assert ts == [ts[0]] + ts[1..];
    }
  }

  /** The sort comparator, as the code writes it: two undated tasks tie,
      an undated task goes after a dated one, two dated tasks compare by
      the difference of their days. */
  function Compare(a: Task, b: Task): (r: int)
    ensures r < 0 <==> a.dueDate.OnDay? && (b.dueDate.NoDate? || a.dueDate.day < b.dueDate.day)
    ensures r > 0 <==> b.dueDate.OnDay? && (a.dueDate.NoDate? || b.dueDate.day < a.dueDate.day)
  {
    if a.dueDate.NoDate? && b.dueDate.NoDate? then 0
    else if a.dueDate.NoDate? then 1
    else if b.dueDate.NoDate? then -1
    else a.dueDate.day - b.dueDate.day
  }

  /** The order the comparator induces on due dates: every date before
      "no date", dates by day. */
  predicate DueLe(a: DueDate, b: DueDate) {
    b.NoDate? || (a.OnDay? && a.day <= b.day)
  }

  /** The comparator is consistent: it is antisymmetric, it returns 0
      exactly on equal due dates, and "not after" is the order `DueLe`,
      which is total and transitive. */
  lemma CompareIsConsistent(a: Task, b: Task, c: Task)
    ensures Compare(a, b) == -Compare(b, a)
    ensures Compare(a, b) == 0 <==> a.dueDate == b.dueDate
    ensures Compare(a, b) <= 0 <==> DueLe(a.dueDate, b.dueDate)
    ensures DueLe(a.dueDate, b.dueDate) || DueLe(b.dueDate, a.dueDate)
    ensures DueLe(a.dueDate, b.dueDate) && DueLe(b.dueDate, c.dueDate) ==> DueLe(a.dueDate, c.dueDate)
  {
  }

  /** `s` is in the comparator's order. */
  predicate SortedByDue(s: seq<Task>) {
    forall i, j :: 0 <= i < j < |s| ==> DueLe(s[i].dueDate, s[j].dueDate)
  }

  /** The tasks of `s` whose due date is `d`, in the order of `s`: the
      elements the comparator cannot tell apart. */
  function WithDue(s: seq<Task>, d: DueDate): seq<Task> {
    if s == [] then []
    else (if s[0].dueDate == d then [s[0]] else []) + WithDue(s[1..], d)
  }

  lemma {:induction false} WithDueAppend(a: seq<Task>, b: seq<Task>, d: DueDate)
    ensures WithDue(a + b, d) == WithDue(a, d) + WithDue(b, d)
    decreases |a|
  {
    if a == [] {
      assert a + b == b;
    } else {
      var h := if a[0].dueDate == d then [a[0]] else [];
      assert (a + b)[0] == a[0];
      assert (a + b)[1..] == a[1..] + b;
      WithDueAppend(a[1..], b, d);
      assert h + (WithDue(a[1..], d) + WithDue(b, d)) == (h + WithDue(a[1..], d)) + WithDue(b, d);
    }
  }

  /** Taking the due-date subsequence of a sequence with a known last task. */
  lemma WithDueSnoc(s: seq<Task>, t: Task, d: DueDate)
    ensures WithDue(s + [t], d) == WithDue(s, d) + (if t.dueDate == d then [t] else [])
  {
    WithDueAppend(s, [t], d);
    assert WithDue([t], d) == (if t.dueDate == d then [t] else []) + WithDue([], d);
  }

  /** One step of a stable insertion sort: `x` goes into `s` before the
      first task the comparator puts after it. */
  function Insert(x: Task, s: seq<Task>): (r: seq<Task>)
    ensures |r| == |s| + 1
  {
    if s == [] then [x]
    else if Compare(x, s[0]) < 0 then [x] + s
    else [s[0]] + Insert(x, s[1..])
  }

  /** Insertion adds exactly the one task. */
  lemma {:induction false} InsertPermutes(x: Task, s: seq<Task>)
    ensures multiset(Insert(x, s)) == multiset(s) + multiset{x}
    decreases |s|
  {
    if s != [] {
      assert s == [s[0]] + s[1..];
      if Compare(x, s[0]) >= 0 {
        InsertPermutes(x, s[1..]);
      }
    }
  }

  /** Inserting into a sorted sequence keeps it sorted. */
  lemma {:induction false} InsertSorted(x: Task, s: seq<Task>)
    requires SortedByDue(s)
    ensures SortedByDue(Insert(x, s))
    decreases |s|
  {
    if s != [] && Compare(x, s[0]) >= 0 {
      var rest := Insert(x, s[1..]);
      InsertSorted(x, s[1..]);
      InsertPermutes(x, s[1..]);
      forall t | t in rest ensures DueLe(s[0].dueDate, t.dueDate) {
        assert t in multiset(rest);
        if t != x {
          assert t in s[1..];
        }
      }
      assert Insert(x, s) == [s[0]] + rest;
    }
  }

  /** No task of a sorted sequence whose head comes after `d` is due on `d`. */
  lemma {:induction false} NoneWithDue(s: seq<Task>, d: DueDate)
    requires SortedByDue(s) && s != []
    requires DueLe(d, s[0].dueDate) && d != s[0].dueDate
    ensures WithDue(s, d) == []
    decreases |s|
  {
    if |s| > 1 {
      SortedTail(s);
      NoneWithDue(s[1..], d);
    }
  }

  /** Taking the due-date subsequence of a sequence with a known head. */
  lemma WithDueCons(t: Task, s: seq<Task>, d: DueDate)
    ensures WithDue([t] + s, d) == (if t.dueDate == d then [t] else []) + WithDue(s, d)
  {
    assert ([t] + s)[1..] == s;
  }

  lemma SortedTail(s: seq<Task>)
    requires SortedByDue(s) && s != []
    ensures SortedByDue(s[1..])
  {
  }

  /** Insertion puts `x` after every task of `s` with the same due date. */
  lemma {:induction false} InsertStable(x: Task, s: seq<Task>, d: DueDate)
    requires SortedByDue(s)
    ensures WithDue(Insert(x, s), d) == WithDue(s, d) + (if x.dueDate == d then [x] else [])
    decreases |s|
  {
    if s == [] {
      WithDueCons(x, [], d);
    } else if Compare(x, s[0]) < 0 {
      WithDueCons(x, s, d);
      if x.dueDate == d {
        NoneWithDue(s, d);
      }
    } else {
      SortedTail(s);
      InsertStable(x, s[1..], d);
      InsertSkipStable(x, s, d);
    }
  }

  /** When `x` goes past the head, the head comes first in every due-date
      subsequence. */
  lemma InsertSkipStable(x: Task, s: seq<Task>, d: DueDate)
    requires s != [] && Compare(x, s[0]) >= 0
    requires WithDue(Insert(x, s[1..]), d) == WithDue(s[1..], d) + (if x.dueDate == d then [x] else [])
    ensures WithDue(Insert(x, s), d) == WithDue(s, d) + (if x.dueDate == d then [x] else [])
  {
    var ins := Insert(x, s[1..]);
    var h := if s[0].dueDate == d then [s[0]] else [];
    assert Insert(x, s) == [s[0]] + ins;
    var tl := if x.dueDate == d then [x] else [];
    WithDueCons(s[0], ins, d);
    assert WithDue(s, d) == h + WithDue(s[1..], d);
    assert h + (WithDue(s[1..], d) + tl) == (h + WithDue(s[1..], d)) + tl;
  }

  /** `[...tasks].sort(compare)` on a copy: a stable sort, here an
      insertion sort taking the tasks in list order. */
  function SortByDue(ts: seq<Task>): (r: seq<Task>)
    ensures multiset(r) == multiset(ts)
    decreases |ts|
  {
    if ts == [] then []
    else
      assert ts == ts[..|ts| - 1] + [ts[|ts| - 1]];
      InsertPermutes(ts[|ts| - 1], SortByDue(ts[..|ts| - 1]));
      Insert(ts[|ts| - 1], SortByDue(ts[..|ts| - 1]))
  }

  /** The sort's output is in the comparator's order. */
  lemma {:induction false} SortByDueSorted(ts: seq<Task>)
    ensures SortedByDue(SortByDue(ts))
    decreases |ts|
  {
    if ts != [] {
      SortByDueSorted(ts[..|ts| - 1]);
      InsertSorted(ts[|ts| - 1], SortByDue(ts[..|ts| - 1]));
    }
  }

  /** One step of the sort, on the due-date subsequences. */
  lemma InsertIntoSorted(x: Task, s: seq<Task>, d: DueDate)
    ensures WithDue(Insert(x, SortByDue(s)), d)
         == WithDue(SortByDue(s), d) + (if x.dueDate == d then [x] else [])
  {
    SortByDueSorted(s);
    InsertStable(x, SortByDue(s), d);
  }

  /** The sort is stable: the tasks due on any one date, and the undated
      tasks, come out in their input order. */
  lemma {:induction false} SortByDueStable(ts: seq<Task>, d: DueDate)
    ensures WithDue(SortByDue(ts), d) == WithDue(ts, d)
    decreases |ts|
  {
    if ts != [] {
      var init := ts[..|ts| - 1];
      var last := ts[|ts| - 1];
      assert init + [last] == ts;
      assert SortByDue(ts) == Insert(last, SortByDue(init));
      SortByDueStable(init, d);
      InsertIntoSorted(last, init, d);
      WithDueSnoc(init, last, d);
    }
  }

  /** Filtering keeps list order: the matching tasks due on `d` are the
      tasks due on `d` that match, in the same order. */
  lemma {:induction false} FilterWithDue(ts: seq<Task>, q: string, d: DueDate)
    ensures WithDue(FilterTasks(ts, q), d) == FilterTasks(WithDue(ts, d), q)
    decreases |ts|
  {
    if ts != [] {
      FilterWithDue(ts[1..], q, d);
      FilterWithDueStep(ts, q, d);
    }
  }

  /** The step of `FilterWithDue`, given the claim for the tail. */
  lemma FilterWithDueStep(ts: seq<Task>, q: string, d: DueDate)
    requires ts != []
    requires WithDue(FilterTasks(ts[1..], q), d) == FilterTasks(WithDue(ts[1..], d), q)
    ensures WithDue(FilterTasks(ts, q), d) == FilterTasks(WithDue(ts, d), q)
  {
    var t := ts[0];
    var w := WithDue(ts[1..], d);
    WithDueCons(t, FilterTasks(ts[1..], q), d);
    if t.dueDate == d {
      FilterCons(t, w, q);
    } else {
      assert WithDue(ts, d) == w;
    }
  }

  /** Filtering a sequence with a known head. */
  lemma FilterCons(t: Task, s: seq<Task>, q: string)
    ensures FilterTasks([t] + s, q) == (if Matches(t, q) then [t] else []) + FilterTasks(s, q)
  {
    assert ([t] + s)[1..] == s;
  }

  /** Filtering distributes over concatenation, so the kept tasks keep
      their relative order. */
  lemma {:induction false} FilterAppend(a: seq<Task>, b: seq<Task>, q: string)
    ensures FilterTasks(a + b, q) == FilterTasks(a, q) + FilterTasks(b, q)
    decreases |a|
  {
    if a == [] {
      assert a + b == b;
    } else {
      assert a == [a[0]] + a[1..];
      assert a + b == [a[0]] + (a[1..] + b);
      FilterAppend(a[1..], b, q);
      FilterAppendStep(a[0], a[1..], b, q);
    }
  }

  /** The step of `FilterAppend` for a known head. */
  lemma FilterAppendStep(t: Task, a: seq<Task>, b: seq<Task>, q: string)
    requires FilterTasks(a + b, q) == FilterTasks(a, q) + FilterTasks(b, q)
    ensures FilterTasks([t] + (a + b), q) == FilterTasks([t] + a, q) + FilterTasks(b, q)
  {
    var h := if Matches(t, q) then [t] else [];
    FilterCons(t, a + b, q);
    FilterCons(t, a, q);
    Assoc(h, FilterTasks(a, q), FilterTasks(b, q));
  }

  /** Concatenation is associative. */
  lemma Assoc(x: seq<Task>, y: seq<Task>, z: seq<Task>)
    ensures x + (y + z) == (x + y) + z
  {
  }

  /** `visible`: the tasks matching the normalised query (all of them
      when it is empty), sorted by due date. */
  function Visible(list: TaskList, filterQuery: string): (r: seq<Task>)
    ensures |r| <= |list.tasks|
    ensures Query(filterQuery) == [] ==> |r| == |list.tasks|
  {
    var q := Query(filterQuery);
    var filtered := if q == [] then list.tasks else FilterTasks(list.tasks, q);
    assert |SortByDue(filtered)| == |multiset(filtered)|;
    SortByDue(filtered)
  }

  /** What the projection shows: exactly the matching tasks, each as
      often as in the list; dated tasks first in order of day, undated
      ones last; tasks due on the same day, and undated tasks, in list
      order. The list itself is a value, so the sort cannot reorder it. */
  lemma VisibleSpec(list: TaskList, filterQuery: string)
    ensures var q := Query(filterQuery);
      forall t :: t in Visible(list, filterQuery) <==> t in list.tasks && (q == [] || Matches(t, q))
    ensures var q := Query(filterQuery);
      forall t :: multiset(Visible(list, filterQuery))[t]
        == if q == [] || Matches(t, q) then multiset(list.tasks)[t] else 0
    ensures Query(filterQuery) == [] ==> multiset(Visible(list, filterQuery)) == multiset(list.tasks)
    ensures SortedByDue(Visible(list, filterQuery))
    ensures var q := Query(filterQuery);
      forall d :: WithDue(Visible(list, filterQuery), d)
        == if q == [] then WithDue(list.tasks, d) else FilterTasks(WithDue(list.tasks, d), q)
  {
    var q := Query(filterQuery);
    var filtered := if q == [] then list.tasks else FilterTasks(list.tasks, q);
    var v := Visible(list, filterQuery);
    forall t ensures t in v <==> t in list.tasks && (q == [] || Matches(t, q)) {
      assert t in v <==> t in multiset(v);
      assert t in filtered <==> t in multiset(filtered);
    }
    SortByDueSorted(filtered);
    forall d ensures WithDue(v, d)
        == if q == [] then WithDue(list.tasks, d) else FilterTasks(WithDue(list.tasks, d), q)
    {
      SortByDueStable(filtered, d);
      if q != [] {
        FilterWithDue(list.tasks, q, d);
      }
    }
  }

  /** A sorted projection puts every dated task before every undated one. */
  lemma DatedBeforeUndated(list: TaskList, filterQuery: string, i: nat, j: nat)
    requires i < |Visible(list, filterQuery)| && j < |Visible(list, filterQuery)|
    requires Visible(list, filterQuery)[i].dueDate.OnDay?
    requires Visible(list, filterQuery)[j].dueDate.NoDate?
    ensures i < j
  {
    var q := Query(filterQuery);
    SortByDueSorted(if q == [] then list.tasks else FilterTasks(list.tasks, q));
    DatedFirst(Visible(list, filterQuery), i, j);
  }

  /** In a sorted sequence a dated task comes before an undated one. */
  lemma DatedFirst(s: seq<Task>, i: nat, j: nat)
    requires SortedByDue(s) && i < |s| && j < |s|
    requires s[i].dueDate.OnDay? && s[j].dueDate.NoDate?
    ensures i < j
  {
  }

  /** The example of a dated task followed by an undated one: the empty
      query shows them in that order. */
  lemma VisibleExample(t1: Task, t2: Task)
    requires t1.dueDate.OnDay? && t2.dueDate.NoDate?
    ensures Visible(TaskList("L1", "", [t1, t2]), "") == [t1, t2]
  {
    var s := [t1, t2];
    assert s[..1] == [t1];
    assert SortByDue([t1]) == [t1];
  }

  /** `addTaskNow`: a blank title submits nothing; otherwise the trimmed
      title is submitted with an empty description, the label "none", no
      due date and an empty checklist. */
  function AddTaskNow(newTitle: string): (r: Option<TaskFields>)
    ensures r.None? <==> AllSpace(newTitle)
    ensures r.Some? ==> r.value == TaskFields(Trim(newTitle), "", "none", NoDate, [])
    ensures r.Some? ==> r.value.title != [] && Trimmed(r.value.title)
  {
    var t := Trim(newTitle);
    if t == [] then None else Some(TaskFields(t, "", "none", NoDate, []))
  }

  /** `saveRename`: a blank name renames nothing; otherwise the trimmed
      name is the new title. */
  function SaveRename(nameInput: string): (r: Option<string>)
    ensures r.None? <==> AllSpace(nameInput)
    ensures r.Some? ==> r.value == Trim(nameInput) && r.value != [] && Trimmed(r.value)
  {
    var t := Trim(nameInput);
    if t == [] then None else Some(t)
  }

  /** `dragDisabled = Boolean(q)`: dragging is off exactly while the query
      holds something other than white space. */
  function DragDisabled(filterQuery: string): (r: bool)
    ensures r <==> !AllSpace(filterQuery)
  {
    Query(filterQuery) != []
  }
}
