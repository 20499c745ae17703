/**
 * The task list page: the `where` clause chosen by the filter tab, the query
 * ordered newest first, and the handlers that add, toggle, edit and delete a
 * task, each followed by a reload.
 */
module TasksPage {
  import opened Wrappers
  import opened Entities
  import opened Text
  import Seqs
  import opened Sorting
  import opened Store

  /** The three filter tabs. */
  datatype Filter = All | Active | Completed

  /** The `where` clause for a tab: no condition, or the value `completed` must have. */
  function WhereOf(filter: Filter): Option<bool> {
    match filter
    case All => None
    case Active => Some(false)
    case Completed => Some(true)
  }

  /** A task satisfies a `where` clause on `completed`. */
  predicate Matches(where: Option<bool>, t: Task) {
    where.None? || t.completed == where.value
  }

  function MatchFn(where: Option<bool>): Task -> bool {
    t => Matches(where, t)
  }

  /** The `orderBy: { createdAt: "desc" }` key. */
  function NewestFirst(t: Task): Key {
    ByNumber(-(Stamp(t) as int))
  }

  /** `taskRepo.find({ where, orderBy: { createdAt: "desc" } })` on the stored rows. */
  function FindTasks(rows: seq<Task>, where: Option<bool>): seq<Task> {
    Sort(Seqs.Filter(rows, MatchFn(where)), NewestFirst)
  }

  /**
   * The query returns exactly the stored tasks satisfying the clause, each as
   * often as stored, newest first; with distinct stamps, strictly so.
   */
  lemma FindTasksSpec(rows: seq<Task>, where: Option<bool>)
    ensures multiset(FindTasks(rows, where)) == multiset(Seqs.Filter(rows, MatchFn(where)))
    ensures forall t :: t in FindTasks(rows, where) <==> t in rows && Matches(where, t)
    ensures forall i, j :: 0 <= i < j < |FindTasks(rows, where)| ==>
              Stamp(FindTasks(rows, where)[i]) >= Stamp(FindTasks(rows, where)[j])
    ensures Increasing(rows, Stamp) ==>
              forall i, j :: 0 <= i < j < |FindTasks(rows, where)| ==>
                Stamp(FindTasks(rows, where)[i]) > Stamp(FindTasks(rows, where)[j])
  {
    var kept := Seqs.Filter(rows, MatchFn(where));
    var r := FindTasks(rows, where);
    Seqs.FilterMembers(rows, MatchFn(where));
    SortAscending(kept, NewestFirst);
    forall t ensures t in r <==> t in kept {
      assert t in r <==> t in multiset(r);
    }
    if Increasing(rows, Stamp) {
      FilterIncreasing(rows, Stamp, MatchFn(where));
      forall i, j | 0 <= i < j < |r| ensures Stamp(r[i]) > Stamp(r[j]) {
        assert AtMost(NewestFirst(r[i]), NewestFirst(r[j]));
        DistinctStamps(kept, r, i, j);
      }
    }
  }

  /** A rearrangement of rows with increasing stamps has no two positions with one stamp. */
  lemma DistinctStamps(kept: seq<Task>, r: seq<Task>, i: int, j: int)
    requires Increasing(kept, Stamp) && multiset(r) == multiset(kept)
    requires 0 <= i < j < |r|
    ensures Stamp(r[i]) != Stamp(r[j])
  {
    assert Seqs.Distinct(kept) by {
      forall a, b | 0 <= a < b < |kept| ensures kept[a] != kept[b] {
        assert Stamp(kept[a]) < Stamp(kept[b]);
      }
    }
    Seqs.DistinctOnce(kept, r[i]);
    SameElementTwice(r, i, j);
    assert r[i] in multiset(kept) && r[j] in multiset(kept);
    var p :| 0 <= p < |kept| && kept[p] == r[i];
    var q :| 0 <= q < |kept| && kept[q] == r[j];
    assert p < q ==> Stamp(kept[p]) < Stamp(kept[q]);
    assert q < p ==> Stamp(kept[q]) < Stamp(kept[p]);
  }

  /** A sequence with one element at two positions holds it at least twice. */
  lemma SameElementTwice<T>(r: seq<T>, i: int, j: int)
    requires 0 <= i < j < |r|
    ensures r[i] == r[j] ==> multiset(r)[r[i]] >= 2
  {
    assert r == r[..j] + r[j..];
    assert r[i] in r[..j] && r[j] in r[j..];
    assert multiset(r)[r[j]] == multiset(r[..j])[r[j]] + multiset(r[j..])[r[j]];
  }

  /**
   * The "active" and "completed" tabs split the "all" tab: every task is on
   * exactly one of them.
   */
  lemma TabsPartition(rows: seq<Task>)
    ensures multiset(FindTasks(rows, WhereOf(Active))) + multiset(FindTasks(rows, WhereOf(Completed)))
            == multiset(FindTasks(rows, WhereOf(All)))
    ensures multiset(FindTasks(rows, WhereOf(All))) == multiset(rows)
  {
    assert WhereOf(Active) == Some(false) && WhereOf(Completed) == Some(true) && WhereOf(All) == None;
    assert multiset(FindTasks(rows, Some(false))) == multiset(Seqs.Filter(rows, MatchFn(Some(false))));
    assert multiset(FindTasks(rows, Some(true))) == multiset(Seqs.Filter(rows, MatchFn(Some(true))));
    assert multiset(FindTasks(rows, None)) == multiset(Seqs.Filter(rows, MatchFn(None)));
    CompletedSplits(rows);
  }

  /** Filtering on `completed == false` and on `completed == true` splits the rows, and no condition keeps them all. */
  lemma CompletedSplits(rows: seq<Task>)
    ensures multiset(Seqs.Filter(rows, MatchFn(Some(false)))) + multiset(Seqs.Filter(rows, MatchFn(Some(true))))
            == multiset(Seqs.Filter(rows, MatchFn(None)))
    ensures Seqs.Filter(rows, MatchFn(None)) == rows
  {
    Seqs.FilterSplit(rows, MatchFn(None), MatchFn(Some(false)), MatchFn(Some(true)));
    Seqs.FilterKeepsAll(rows, MatchFn(None));
  }

  /** The "active" tab shows only incomplete tasks and the "completed" tab only completed ones. */
  lemma TabsMatch(rows: seq<Task>)
    ensures forall t :: t in FindTasks(rows, WhereOf(Active)) ==> !t.completed
    ensures forall t :: t in FindTasks(rows, WhereOf(Completed)) ==> t.completed
  {
    FindTasksSpec(rows, WhereOf(Active));
    FindTasksSpec(rows, WhereOf(Completed));
  }

  /** A task stamped after every stored one comes first on any tab it belongs to. */
  lemma {:induction false} NewestComesFirst(rows: seq<Task>, t: Task, where: Option<bool>)
    requires Bounded(rows, Stamp, Stamp(t)) && Matches(where, t)
    ensures FindTasks(rows + [t], where) != [] && FindTasks(rows + [t], where)[0] == t
  {
    assert forall x :: x in rows ==> Stamp(x) < Stamp(t);
    var r := FindTasks(rows + [t], where);
    FindTasksSpec(rows + [t], where);
    assert t in r;
    var m :| 0 <= m < |r| && r[m] == t;
    assert r[0] in rows + [t];
    assert m > 0 ==> AtMost(NewestFirst(r[0]), NewestFirst(r[m]));
    assert Stamp(r[0]) >= Stamp(t);
    assert r[0] == t;
  }

  /** `tasks.filter((t) => !t.completed).length`: the incomplete tasks among those loaded. */
  function ActiveCount(tasks: seq<Task>): (n: nat)
    ensures n <= |tasks|
  {
    |Seqs.Filter(tasks, MatchFn(Some(false)))|
  }

  /** The badge counts what is left: all loaded tasks minus the completed ones. */
  lemma ActiveCountIsRest(tasks: seq<Task>)
    ensures ActiveCount(tasks) == |tasks| - |Seqs.Filter(tasks, MatchFn(Some(true)))|
  {
    CompletedSplits(tasks);
    Seqs.FilterKeepsAll(tasks, MatchFn(None));
    assert |multiset(tasks)| == |multiset(Seqs.Filter(tasks, MatchFn(Some(false))))|
                               + |multiset(Seqs.Filter(tasks, MatchFn(Some(true))))|;
  }

  /** Under the "active" tab the badge equals the list length; under "completed" it is 0. */
  lemma ActiveCountOnTabs(rows: seq<Task>)
    ensures ActiveCount(FindTasks(rows, WhereOf(Active))) == |FindTasks(rows, WhereOf(Active))|
    ensures ActiveCount(FindTasks(rows, WhereOf(Completed))) == 0
  {
    TabsMatch(rows);
    var active := FindTasks(rows, WhereOf(Active));
    var done := FindTasks(rows, WhereOf(Completed));
    Seqs.FilterKeepsAll(active, MatchFn(Some(false)));
    Seqs.FilterKeepsNone(done, MatchFn(Some(false)));
  }

  /** The record `toggleComplete` saves: `completed` flipped, every other field as it was. */
  function Toggled(t: Task): (r: Task)
    ensures r.completed != t.completed && r.(completed := t.completed) == t
  {
    t.(completed := !t.completed)
  }

  /** Toggling a stored task twice leaves the table as it was. */
  lemma ToggleTwiceRestores(rows: seq<Task>, t: Task)
    requires Increasing(rows, TaskId) && t in rows
    ensures Replace(Replace(rows, TaskId, Toggled(t)), TaskId, Toggled(Toggled(t))) == rows
  {
    ReplaceRestores(rows, TaskId, t, Toggled(t));
  }

  /** The record `saveEdit` saves: trimmed title and description, the chosen priority, everything else kept. */
  function Edited(t: Task, title: string, description: string, priority: Priority): (r: Task)
    ensures r.id == t.id && r.completed == t.completed && r.createdAt == t.createdAt
    ensures r.title == Trim(title) && r.description == Trim(description) && r.priority == priority
  {
    t.(title := Trim(title), description := Trim(description), priority := priority)
  }

  /** The page's state and the table it shows. */
  class Page {
    const store: TaskStore
    var tasks: seq<Task>
    var filter: Filter
    var newTitle: string
    var newDescription: string
    var newPriority: Priority
    var editingId: Option<nat>
    var editTitle: string
    var editDescription: string
    var editPriority: Priority

    /** Every task on the list is a stored row, so a handler given one may save or delete it. */
    ghost predicate Valid()
      reads this, store
    {
      store.Valid() && forall t :: t in tasks ==> t in store.rows
    }

    /** The list is the query for the current tab, as every handler leaves it by reloading. */
    ghost predicate Loaded()
      reads this, store
    {
      tasks == FindTasks(store.rows, WhereOf(filter))
    }

    /** Mounting the page: empty forms, the "all" tab, and the first load. */
    constructor (store: TaskStore)
      requires store.Valid()
      ensures Valid() && Loaded() && this.store == store
      ensures filter == All
      ensures newTitle == "" && newDescription == "" && newPriority == Medium
      ensures editingId == None && editTitle == "" && editDescription == "" && editPriority == Medium
    {
      this.store := store;
      tasks := FindTasks(store.rows, None);
      LoadedAreStored(store.rows, None);
      filter := All;
      newTitle, newDescription, newPriority := "", "", Medium;
      editingId := None;
      editTitle, editDescription, editPriority := "", "", Medium;
    }

    /** `loadTasks`: build the `where` clause from the tab, then query. */
    method LoadTasks()
      requires store.Valid()
      modifies this`tasks
      ensures Valid() && Loaded()
    {
      var where: Option<bool> := None;
      if filter == Active {
        where := Some(false);
      }
      if filter == Completed {
        where := Some(true);
      }
      tasks := FindTasks(store.rows, where);
      LoadedAreStored(store.rows, where);
    }

    /** Choosing a tab reloads the list for it. */
    method SetFilter(f: Filter)
      requires store.Valid()
      modifies this`filter, this`tasks
      ensures Valid() && Loaded() && filter == f
    {
      filter := f;
      LoadTasks();
    }

    /**
     * `addTask`: a title that trims to nothing adds nothing; otherwise the
     * trimmed title and description are inserted with the chosen priority
     * and the defaults for the rest, and the form is reset.
     */
    method AddTask()
      requires Valid()
      modifies this`tasks, this`newTitle, this`newDescription, this`newPriority, store
      ensures Valid()
      ensures !IsBlank(old(newTitle)) ==> Loaded()
      ensures IsBlank(old(newTitle)) ==> unchanged(this) && unchanged(store)
      ensures !IsBlank(old(newTitle)) ==>
        && store.rows == old(store.rows) + [Task(old(store.nextId), Trim(old(newTitle)), Trim(old(newDescription)),
                                                 false, old(newPriority), Some(old(store.clock)))]
        && store.nextId == old(store.nextId) + 1 && store.clock > old(store.clock)
        && newTitle == "" && newDescription == "" && newPriority == Medium
        && (filter != Completed ==> tasks != [] && tasks[0] == store.rows[|store.rows| - 1])
    {
      if !IsBlank(newTitle) {
        ghost var before := store.rows;
        ghost var now := store.clock;
        store.StampsBelowClock();
        var draft := NewTask.(title := Trim(newTitle), description := Trim(newDescription), priority := newPriority);
        var t := store.Insert(draft);
        assert Stamp(t) == now && !t.completed;
        newTitle, newDescription, newPriority := "", "", Medium;
        LoadTasks();
        if filter != Completed {
          ShownFirst(before, t, filter, store.rows, tasks);
        }
      }
    }

    /** `toggleComplete`: the task is saved with `completed` flipped. */
    method ToggleComplete(task: Task)
      requires Valid() && task in tasks
      modifies this`tasks, store
      ensures Valid() && Loaded()
      ensures store.rows == Replace(old(store.rows), TaskId, Toggled(task))
      ensures store.nextId == old(store.nextId) && store.clock == old(store.clock)
    {
      store.IdsIncrease();
      StoredCreatedAt(store.rows, task, Toggled(task));
      store.Save(Toggled(task));
      LoadTasks();
    }

    /** `deleteTask`: the task with the id leaves the table and the list. */
    method DeleteTask(id: nat)
      requires Valid() && HasId(tasks, TaskId, id)
      modifies this`tasks, store
      ensures Valid() && Loaded()
      ensures store.rows == Remove(old(store.rows), TaskId, id)
      ensures store.nextId == old(store.nextId) && store.clock == old(store.clock)
      ensures !HasId(tasks, TaskId, id)
    {
      LoadedIdStored(store.rows, tasks, id);
      store.Delete(id);
      LoadTasks();
      DeletedNotLoaded(old(store.rows), filter, id);
    }

    /** `startEdit`: the edit fields take the task's values. */
    method StartEdit(task: Task)
      modifies this`editingId, this`editTitle, this`editDescription, this`editPriority
      ensures editingId == Some(task.id)
      ensures editTitle == task.title && editDescription == task.description && editPriority == task.priority
    {
      editingId := Some(task.id);
      editTitle, editDescription, editPriority := task.title, task.description, task.priority;
    }

    /**
     * `saveEdit`: the task is saved with the trimmed edit title and
     * description and the edit priority; an empty title is not rejected.
     */
    method SaveEdit(task: Task)
      requires Valid() && task in tasks
      modifies this`tasks, this`editingId, store
      ensures Valid() && Loaded() && editingId == None
      ensures store.rows == Replace(old(store.rows), TaskId, Edited(task, old(editTitle), old(editDescription), old(editPriority)))
      ensures store.nextId == old(store.nextId) && store.clock == old(store.clock)
    {
      var saved := Edited(task, editTitle, editDescription, editPriority);
      store.IdsIncrease();
      StoredCreatedAt(store.rows, task, saved);
      store.Save(saved);
      editingId := None;
      LoadTasks();
    }

    method CancelEdit()
      modifies this`editingId
      ensures editingId == None
    {
      editingId := None;
    }
  }

  /**
   * Saving a loaded task under its own id with its own `createdAt` finds the
   * row and keeps the stamp, so the saved record is the one given.
   */
  lemma StoredCreatedAt(rows: seq<Task>, t: Task, saved: Task)
    requires Increasing(rows, TaskId) && t in rows
    requires saved.id == t.id && saved.createdAt == t.createdAt
    ensures HasId(rows, TaskId, saved.id)
    ensures saved.(createdAt := FindById(rows, TaskId, saved.id).value.createdAt) == saved
  {
    FindStored(rows, TaskId, t);
  }

  /** An id on a list of stored tasks is an id in the table. */
  lemma LoadedIdStored(rows: seq<Task>, tasks: seq<Task>, id: nat)
    requires forall t :: t in tasks ==> t in rows
    requires HasId(tasks, TaskId, id)
    ensures HasId(rows, TaskId, id)
  {
    var i :| 0 <= i < |tasks| && TaskId(tasks[i]) == id;
    assert tasks[i] in rows;
    var j :| 0 <= j < |rows| && rows[j] == tasks[i];
  }

  /** Once the rows with an id are removed, no reload shows that id. */
  lemma DeletedNotLoaded(rows: seq<Task>, filter: Filter, id: nat)
    ensures !HasId(FindTasks(Remove(rows, TaskId, id), WhereOf(filter)), TaskId, id)
  {
    var left := Remove(rows, TaskId, id);
    var tasks := FindTasks(left, WhereOf(filter));
    RemoveDrops(rows, TaskId, id);
    FindTasksSpec(left, WhereOf(filter));
    forall k | 0 <= k < |tasks| ensures TaskId(tasks[k]) != id {
      assert tasks[k] in left;
    }
  }

  /** After appending a task newer than every row, the reload for a tab it belongs to starts with it. */
  lemma ShownFirst(before: seq<Task>, t: Task, filter: Filter, rows: seq<Task>, tasks: seq<Task>)
    requires Bounded(before, Stamp, Stamp(t)) && !t.completed && filter != Completed
    requires rows == before + [t] && tasks == FindTasks(rows, WhereOf(filter))
    ensures tasks != [] && tasks[0] == rows[|rows| - 1]
  {
    NewestComesFirst(before, t, WhereOf(filter));
  }

  /** Every task a query returns is a stored one. */
  lemma LoadedAreStored(rows: seq<Task>, where: Option<bool>)
    ensures forall t :: t in FindTasks(rows, where) ==> t in rows
  {
    FindTasksSpec(rows, where);
  }
}
