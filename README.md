# Remote task store

A Dafny model of the remote data source of the MVP / RxJava 2 / Retrofit 2 to-do sample
(`RemoteDataSource.java`): an in-memory stand-in for a network service that keeps every task in a
single `LinkedHashMap<String, Task>` keyed by task id, and offers reads (all tasks, one task),
an upsert, the two status transitions, bulk removal of completed tasks, point removal and total
removal.

Layout:

- `wrappers.dfy` (module `Wrappers`): `Option`, the value of a point read. A stream that
  emits one `Optional.of(task)` becomes `Some(task)`; `Flowable.empty()` becomes `None`.
- `tasks.dfy` (module `Tasks`): the `Task` entity (id, title, description, completed) and the
  completed and active copies the transitions build.
- `task_table.dfy` (module `TaskTable`): the store's abstract value `Table(entries, order)`. It
  pairs the key-to-task map with its keys in insertion order, as a `LinkedHashMap` iterates them.
  `WellFormed` says the order lists each key once and each task sits under its own id. Each
  operation is a function on tables (`Put`, `Complete`, `Activate`, `Delete`,
  `ClearCompleted`, `Empty`; reads `Values`, `Lookup`). The lemmas prove what the operations
  promise.
- `remote_data_source.dfy` (module `Remote`): class `RemoteDataSource` with the two fields
  `tasks` (the map) and `order` (the key order). Each mutator changes them in place and is proved
  to leave `Model()` equal to the matching `TaskTable` function of the old value.
  `ClearCompletedTasks` is the iterator loop with `it.remove()`: a cursor into the live key
  order that splices out each completed key.

`LinkedHashMap` semantics kept by the model: `put` on a new key appends it to the iteration order,
`put` on an existing key replaces the value and keeps the key's position, `remove` unlinks one key
and keeps the rest in order, and `clear` empties both.

## Model

| member | source | states |
|---|---|---|
| Remote.RemoteDataSource.constructor | mvp-rxjava2-retrofit2-android/app/src/main/java/com/example/android/architecture/blueprints/todoapp/data/source/remote/RemoteDataSource.java:73-74 | a new store is well formed and empty |
| Remote.RemoteDataSource.GetTasks | mvp-rxjava2-retrofit2-android/app/src/main/java/com/example/android/architecture/blueprints/todoapp/data/source/remote/RemoteDataSource.java:95-103 | returns the stored tasks in iteration order, one per key; the loop collects `tasks[order[i]]` for each position |
| Remote.RemoteDataSource.GetTask | mvp-rxjava2-retrofit2-android/app/src/main/java/com/example/android/architecture/blueprints/todoapp/data/source/remote/RemoteDataSource.java:105-114 | returns `Some` of the task stored under the id, and `None` (the empty stream) when the id is absent |
| Remote.RemoteDataSource.PutEntry | mvp-rxjava2-retrofit2-android/app/src/main/java/com/example/android/architecture/blueprints/todoapp/data/source/remote/RemoteDataSource.java:119 | the map's `put`: the new state is `Put` of the old one, and the store stays well formed |
| Remote.RemoteDataSource.SaveTask | mvp-rxjava2-retrofit2-android/app/src/main/java/com/example/android/architecture/blueprints/todoapp/data/source/remote/RemoteDataSource.java:116-120 | the new state is the old one with the task upserted under its id |
| Remote.RemoteDataSource.CompleteTask | mvp-rxjava2-retrofit2-android/app/src/main/java/com/example/android/architecture/blueprints/todoapp/data/source/remote/RemoteDataSource.java:122-127 | the new state is the old one with the completed copy of the task upserted under its id |
| Remote.RemoteDataSource.CompleteTaskById | mvp-rxjava2-retrofit2-android/app/src/main/java/com/example/android/architecture/blueprints/todoapp/data/source/remote/RemoteDataSource.java:129-133 | the store is left exactly as it was |
| Remote.RemoteDataSource.ActivateTask | mvp-rxjava2-retrofit2-android/app/src/main/java/com/example/android/architecture/blueprints/todoapp/data/source/remote/RemoteDataSource.java:135-139 | the new state is the old one with the active copy of the task upserted under its id |
| Remote.RemoteDataSource.ActivateTaskById | mvp-rxjava2-retrofit2-android/app/src/main/java/com/example/android/architecture/blueprints/todoapp/data/source/remote/RemoteDataSource.java:141-145 | the store is left exactly as it was |
| Remote.RemoteDataSource.ClearCompletedTasks | mvp-rxjava2-retrofit2-android/app/src/main/java/com/example/android/architecture/blueprints/todoapp/data/source/remote/RemoteDataSource.java:147-156 | the iterator loop leaves exactly the cleared table: completed entries gone, active ones kept in order |
| Remote.RemoteDataSource.RefreshTasks | mvp-rxjava2-retrofit2-android/app/src/main/java/com/example/android/architecture/blueprints/todoapp/data/source/remote/RemoteDataSource.java:158-162 | the store is left exactly as it was |
| Remote.RemoteDataSource.DeleteAllTasks | mvp-rxjava2-retrofit2-android/app/src/main/java/com/example/android/architecture/blueprints/todoapp/data/source/remote/RemoteDataSource.java:164-167 | the store becomes empty |
| Remote.RemoteDataSource.DeleteTask | mvp-rxjava2-retrofit2-android/app/src/main/java/com/example/android/architecture/blueprints/todoapp/data/source/remote/RemoteDataSource.java:169-172 | the new state is the old one with the id removed from both the map and the key order |
| Tasks.AsCompleted | mvp-rxjava2-retrofit2-android/app/src/main/java/com/example/android/architecture/blueprints/todoapp/data/source/remote/RemoteDataSource.java:125 | the copy keeps id, title and description and is completed |
| Tasks.AsActive | mvp-rxjava2-retrofit2-android/app/src/main/java/com/example/android/architecture/blueprints/todoapp/data/source/remote/RemoteDataSource.java:137 | the copy keeps id, title and description and is not completed |
| TaskTable.ValuesExact | mvp-rxjava2-retrofit2-android/app/src/main/java/com/example/android/architecture/blueprints/todoapp/data/source/remote/RemoteDataSource.java:96-102 | the full read has one task per key (as many as the map has entries); position i holds the task under the i-th key, with that id; a task is listed iff it is a stored value |
| TaskTable.LookupInValues | mvp-rxjava2-retrofit2-android/app/src/main/java/com/example/android/architecture/blueprints/todoapp/data/source/remote/RemoteDataSource.java:106-113 | the point read yields `Some(t)` for an id iff `t` is listed by the full read and carries that id |
| TaskTable.Put | mvp-rxjava2-retrofit2-android/app/src/main/java/com/example/android/architecture/blueprints/todoapp/data/source/remote/RemoteDataSource.java:119 | after an upsert the table is well formed, the id reads back as the task, and every other id reads as before |
| TaskTable.PutValues | mvp-rxjava2-retrofit2-android/app/src/main/java/com/example/android/architecture/blueprints/todoapp/data/source/remote/RemoteDataSource.java:117-120 | a new id is appended to the key order and its task to the listed tasks; an existing id keeps its position and only that position of the list changes, to the new task |
| TaskTable.PutIdempotent | mvp-rxjava2-retrofit2-android/app/src/main/java/com/example/android/architecture/blueprints/todoapp/data/source/remote/RemoteDataSource.java:117-120 | upserting the same task twice equals upserting it once |
| TaskTable.Complete | mvp-rxjava2-retrofit2-android/app/src/main/java/com/example/android/architecture/blueprints/todoapp/data/source/remote/RemoteDataSource.java:123-127 | the table stays well formed; the id is stored (added if new), its task is completed with the argument's id, title and description; no other id changes |
| TaskTable.Activate | mvp-rxjava2-retrofit2-android/app/src/main/java/com/example/android/architecture/blueprints/todoapp/data/source/remote/RemoteDataSource.java:136-139 | the table stays well formed; the id is stored (added if new), its task is active with the argument's id, title and description; no other id changes |
| TaskTable.TransitionsIdempotent | mvp-rxjava2-retrofit2-android/app/src/main/java/com/example/android/architecture/blueprints/todoapp/data/source/remote/RemoteDataSource.java:122-139 | completing (activating) twice, with the same argument or with the task the first call stored, equals doing it once |
| TaskTable.Delete | mvp-rxjava2-retrofit2-android/app/src/main/java/com/example/android/architecture/blueprints/todoapp/data/source/remote/RemoteDataSource.java:169-172 | after removal the table is well formed, the id reads as absent, and every other id reads as before |
| TaskTable.DeleteMissing | mvp-rxjava2-retrofit2-android/app/src/main/java/com/example/android/architecture/blueprints/todoapp/data/source/remote/RemoteDataSource.java:171 | removing an absent id changes nothing |
| TaskTable.DeleteAt | mvp-rxjava2-retrofit2-android/app/src/main/java/com/example/android/architecture/blueprints/todoapp/data/source/remote/RemoteDataSource.java:171 | removing the id at position i splices exactly that position out of the key order and out of the listed tasks |
| TaskTable.DeleteAllEmpty | mvp-rxjava2-retrofit2-android/app/src/main/java/com/example/android/architecture/blueprints/todoapp/data/source/remote/RemoteDataSource.java:164-167 | the cleared store is well formed, lists no task and every id reads as absent |
| TaskTable.ClearCompleted | mvp-rxjava2-retrofit2-android/app/src/main/java/com/example/android/architecture/blueprints/todoapp/data/source/remote/RemoteDataSource.java:148-156 | the result is well formed, holds no completed task, keeps every active task unchanged, and adds no key |
| TaskTable.ClearCompletedValues | mvp-rxjava2-retrofit2-android/app/src/main/java/com/example/android/architecture/blueprints/todoapp/data/source/remote/RemoteDataSource.java:148-156 | the tasks listed after clearing are the active tasks of the old list, unchanged and in their old relative order |
| TaskTable.ClearCompletedIdempotent | mvp-rxjava2-retrofit2-android/app/src/main/java/com/example/android/architecture/blueprints/todoapp/data/source/remote/RemoteDataSource.java:148-156 | clearing a second time changes nothing |
| TaskTable.ClearStep | mvp-rxjava2-retrofit2-android/app/src/main/java/com/example/android/architecture/blueprints/todoapp/data/source/remote/RemoteDataSource.java:150-155 | one iteration: the cursor sees the next unvisited key, still stored unchanged; unlinking a completed one or stepping past an active one keeps the loop's shape (visited active keys, then the unvisited ones) |
| TaskTable.ClearDone | mvp-rxjava2-retrofit2-android/app/src/main/java/com/example/android/architecture/blueprints/todoapp/data/source/remote/RemoteDataSource.java:149-156 | when the iterator is exhausted every key has been visited and the store equals the cleared table |

## Left out

- The Retrofit, OkHttp and Gson client built in the instance initializer (lines 50-71), the
  `RestApi` interface it creates, the commented-out REST calls and the `Response` envelope: network
  plumbing over foreign libraries with no behaviour of the store.
- The 5000 ms `delay` on reads and the RxJava `Flowable` machinery (laziness, scheduling,
  cancellation): only the value a read emits is modelled.
- The singleton `getInstance` and the static seeding with two hard-coded tasks: the map is a
  field of each instance, and a new store starts empty. The seeded tasks get ids from `Task`'s own
  id generator, which is not part of this model; `addTask` stores a task under its id exactly as
  `SaveTask` does.
- `Task` is not part of this model beyond its four fields and the two constructors the store calls.
- Null arguments: every parameter is annotated `@NonNull`, so null is not modelled.
- Concurrency: the static map is unsynchronised; the model is sequential.
- The repository that merges this source with a local one, its cache, its dirty flag and its
  rejection of empty tasks are not part of this model. The remote store itself stores any task,
  empty or not, and `completeTask`/`activateTask` insert the task when its id is absent (the
  map's `put`); the model follows the code in both.
- `StatisticsPresenterTest` tests a presenter against mocks of the repository; the presenter is not
  part of this model.
