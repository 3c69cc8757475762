/**
  The task records the scheduler keeps, and the storage file they are loaded from and
  saved to.
 */
module Tasks {
  import opened Wrappers

  /** A point on the scheduler's local clock, in whole seconds counted from a Monday at
      00:00:00. */
  type Time = int

  /** One entry of the task list. `enabled` is `None` when the record has no `enabled`
      key and `Some(b)` when it has one, `b` being that value's truth; `lastRun` is
      `None` while the task has never completed a firing. */
  datatype Task = Task(
    name: string,
    command: string,
    scheduleType: string,
    scheduleTime: string,
    enabled: Option<bool>,
    lastRun: Option<Time>)

  /** `task.get('enabled', True)`: a task without the key counts as enabled. */
  predicate IsEnabled(t: Task) {
    t.enabled != Some(false)
  }

  /** The storage file: absent, holding a task list, or holding text that does not
      parse as one. */
  datatype Storage = Missing | Saved(tasks: seq<Task>) | Corrupt

  /** The exception `json.load` raises on unreadable content. */
  datatype LoadError = Unparsable

  /** `load_tasks`: no file gives the empty list, a saved list comes back as it was
      written, and unreadable content is an error. */
  function LoadTasks(disk: Storage): (r: Result<seq<Task>, LoadError>)
    ensures r.Err? <==> disk.Corrupt?
  {
    match disk
    case Missing => Ok([])
    case Saved(ts) => Ok(ts)
    case Corrupt => Err(Unparsable)
  }

  /** Loading what `save_tasks` wrote gives back exactly the list that was saved. */
  lemma SaveThenLoad(ts: seq<Task>)
    ensures LoadTasks(Saved(ts)) == Ok(ts)
  {
  }

  /** Without a storage file the scheduler starts from the empty task list. */
  lemma LoadMissing()
    ensures LoadTasks(Missing) == Ok([])
  {
  }
}
