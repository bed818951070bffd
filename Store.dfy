/** The `useLocalStorageTasks` hook: the task list held in a state cell and
    mirrored into the single storage slot 'tasks' after every change. */
module Store {
  import TaskList

  /** What `localStorage.getItem('tasks')` can hold: nothing, the empty
      string, a serialized task list, or text that does not parse as one. */
  datatype Slot = Absent | EmptyString | Serialized(tasks: seq<TaskList.Task>) | Malformed

  datatype LoadError = ParseError

  datatype Result<T> = Ok(value: T) | Err(error: LoadError)

  /** The initial state of the hook: a falsy slot (absent or '') gives the
      empty list; anything else goes through `JSON.parse`, which throws on
      text that is not a task list. */
  function Load(slot: Slot): (r: Result<seq<TaskList.Task>>)
    ensures r.Err? <==> slot.Malformed?
    ensures slot.Absent? || slot.EmptyString? ==> r == Ok([])
    ensures slot.Serialized? ==> r == Ok(slot.tasks)
  {
    match slot
    case Absent => Ok([])
    case EmptyString => Ok([])
    case Serialized(ts) => Ok(ts)
    case Malformed => Err(ParseError)
  }

  class TaskStore {
    var tasks: seq<TaskList.Task>
    /** The storage slot 'tasks'. */
    var storage: Slot

    /** The slot holds the whole current list; the second conjunct is the
        round trip this gives: loading the slot yields the current list. */
    ghost predicate Valid()
      reads this
    {
      storage == Serialized(tasks) && Load(storage) == Ok(tasks)
    }

    /** Mounting with an already loaded list: the persist effect runs once
        on mount and writes the list back. */
    constructor Mount(initial: seq<TaskList.Task>)
      ensures Valid() && tasks == initial
    {
      tasks := initial;
      storage := Serialized(initial);
    }

    method AddTask(d: TaskList.Draft, now: int, isoNow: string)
      modifies this
      ensures Valid()
      ensures tasks == TaskList.AddTask(old(tasks), d, now, isoNow)
    {
      tasks := TaskList.AddTask(tasks, d, now, isoNow);
      storage := Serialized(tasks);
    }

    method ToggleTask(id: int)
      modifies this
      ensures Valid()
      ensures tasks == TaskList.ToggleTask(old(tasks), id)
    {
      tasks := TaskList.ToggleTask(tasks, id);
      storage := Serialized(tasks);
    }

    method DeleteTask(id: int)
      modifies this
      ensures Valid()
      ensures tasks == TaskList.DeleteTask(old(tasks), id)
    {
      tasks := TaskList.DeleteTask(tasks, id);
      storage := Serialized(tasks);
    }

    method EditTask(id: int, patch: TaskList.Patch)
      modifies this
      ensures Valid()
      ensures tasks == TaskList.EditTask(old(tasks), id, patch)
    {
      tasks := TaskList.EditTask(tasks, id, patch);
      storage := Serialized(tasks);
    }
  }

  /** Mounting the hook: load the slot and, if it parses, mount with that
      list; a slot that does not parse makes mounting fail. */
  method Open(slot: Slot) returns (r: Result<TaskStore>)
    ensures r.Err? <==> slot.Malformed?
    ensures r.Ok? ==> fresh(r.value) && r.value.Valid() && Load(slot) == Ok(r.value.tasks)
  {
    var loaded := Load(slot);
    if loaded.Ok? {
      var s := new TaskStore.Mount(loaded.value);
      r := Ok(s);
    } else {
      r := Err(loaded.error);
    }
  }
}
