/** The task entity held by the remote store. */
module Tasks {

  /** A to-do item. Field order follows the constructor arguments the store uses:
      `Task(title, description, id, completed)` with the id moved to the front. */
  datatype Task = Task(id: string, title: string, description: string, completed: bool)

  /** The copy `completeTask(Task)` stores: same identity and text, marked completed. */
  function AsCompleted(t: Task): (r: Task)
    ensures r.id == t.id && r.title == t.title && r.description == t.description
    ensures r.completed
  {
    Task(t.id, t.title, t.description, true)
  }

  /** The copy `activateTask(Task)` stores: same identity and text, marked active
      (the three-argument constructor leaves `completed` false). */
  function AsActive(t: Task): (r: Task)
    ensures r.id == t.id && r.title == t.title && r.description == t.description
    ensures !r.completed
  {
    Task(t.id, t.title, t.description, false)
  }
}
