/** The remote data source: an in-memory stand-in for the network service, holding its tasks in
    an insertion-ordered map that every mutator updates in place. */
module Remote {
  import opened Wrappers
  import opened Tasks
  import opened TaskTable

  class RemoteDataSource {
    // the linked hash map: its key-to-task entries and its keys in insertion order
    var tasks: map<string, Task>
    var order: seq<string>

    /** The store's abstract value. */
    function Model(): Table
      reads this
    {
      Table(tasks, order)
    }

    ghost predicate Valid()
      reads this
    {
      WellFormed(Model())
    }

    /** A fresh store is empty. */
    constructor ()
      ensures Valid() && Model() == Empty
    {
      tasks, order := map[], [];
    }

    /** All stored tasks, collected in iteration order. */
    method GetTasks() returns (r: seq<Task>)
      requires Valid()
      ensures r == Values(Model())
    {
      r := [];
      var i := 0;
      while i < |order|
        invariant 0 <= i <= |order|
        invariant |r| == i
        invariant forall j :: 0 <= j < i ==> r[j] == tasks[order[j]]
      {
        r := r + [tasks[order[i]]];
        i := i + 1;
      }
    }

    /** The task stored under `id`, or `None` where the source completes without emitting. */
    method GetTask(id: string) returns (r: Option<Task>)
      ensures r == Lookup(Model(), id)
    {
      if id in tasks {
        r := Some(tasks[id]);
      } else {
        r := None;
      }
    }

    /** The map's `put(t.id, t)`: a new key goes last, an existing key keeps its position. */
    method PutEntry(t: Task)
      requires Valid()
      modifies this
      ensures Valid()
      ensures Model() == Put(old(Model()), t)
    {
      if t.id !in tasks {
        order := order + [t.id];
      }
      tasks := tasks[t.id := t];
    }

    method SaveTask(task: Task)
      requires Valid()
      modifies this
      ensures Valid()
      ensures Model() == Put(old(Model()), task)
    {
      PutEntry(task);
    }

    method CompleteTask(task: Task)
      requires Valid()
      modifies this
      ensures Valid()
      ensures Model() == Complete(old(Model()), task)
    {
      var completedTask := Task(task.id, task.title, task.description, true);
      PutEntry(completedTask);
    }

    /** Completing by id alone is left to the caller's cache: the store does nothing. */
    method CompleteTaskById(id: string)
      requires Valid()
      ensures Valid()
      ensures Model() == old(Model())
    {
    }

    method ActivateTask(task: Task)
      requires Valid()
      modifies this
      ensures Valid()
      ensures Model() == Activate(old(Model()), task)
    {
      var activeTask := Task(task.id, task.title, task.description, false);
      PutEntry(activeTask);
    }

    /** Activating by id alone is left to the caller's cache: the store does nothing. */
    method ActivateTaskById(id: string)
      requires Valid()
      ensures Valid()
      ensures Model() == old(Model())
    {
    }

    /** Walks the entries with an iterator and unlinks each completed one. The cursor `i` indexes
        the live key order; `j` counts the entries visited. */
    method ClearCompletedTasks()
      requires Valid()
      modifies this
      ensures Valid()
      ensures Model() == ClearCompleted(old(Model()))
    {
      ghost var tb0 := Model();
      ghost var m0, keys := tb0.entries, tb0.order;
      ghost var j := 0;
      var i := 0;
      while i < |order|
        invariant 0 <= j <= |keys|
        invariant order == ActiveKeys(m0, keys[..j]) + keys[j..]
        invariant i == |ActiveKeys(m0, keys[..j])|
        invariant tasks == ClearedUpTo(m0, keys[..j])
        decreases |order| - i
      {
        ClearStep(m0, keys, j);
        var k := order[i];
        if tasks[k].completed {
          tasks := tasks - {k};
          order := order[..i] + order[i + 1..];
        } else {
          i := i + 1;
        }
        j := j + 1;
      }
      ClearDone(tb0, j);
    }

    /** The remote source keeps no secondary cache: refreshing does nothing. */
    method RefreshTasks()
      requires Valid()
      ensures Valid()
      ensures Model() == old(Model())
    {
    }

    method DeleteAllTasks()
      requires Valid()
      modifies this
      ensures Valid()
      ensures Model() == Empty
    {
      tasks, order := map[], [];
    }

    method DeleteTask(id: string)
      requires Valid()
      modifies this
      ensures Valid()
      ensures Model() == Delete(old(Model()), id)
    {
      tasks := tasks - {id};
      order := WithoutKey(order, id);
      assert Model() == Delete(old(Model()), id);
    }
  }
}
