/** The `TaskManager` component: its form, filter and edit state cells and
    the handlers that drive the storage hook. */
module Controller {
  import opened JsString
  import TaskList
  import Store
  import Seqs

  class TaskManager {
    /** The storage hook the component mounts. */
    const store: Store.TaskStore
    var newTaskText: string
    var startTime: string
    var endTime: string
    var date: string
    var filter: string
    /** The task whose edit is in progress, if any: a copy taken when the
        edit began. */
    var editingTask: TaskList.Option<TaskList.Task>

    ghost predicate Valid()
      reads this, store
    {
      store.Valid()
    }

    /** The four draft cells as the object `handleSubmit` passes on. */
    function CurrentDraft(): TaskList.Draft
      reads this
    {
      TaskList.Draft(newTaskText, startTime, endTime, date)
    }

    /** The list the component renders: the store's tasks in their order,
        those the filter keeps, all of them for a filter value other than
        'active' and 'completed'. */
    function Visible(): (r: seq<TaskList.Task>)
      reads this, store
      ensures Seqs.IsSubsequence(r, store.tasks)
      ensures filter == "active" ==> forall t :: t in r <==> t in store.tasks && !t.completed
      ensures filter == "completed" ==> forall t :: t in r <==> t in store.tasks && t.completed
      ensures filter == "active" ==>
        forall t :: multiset(r)[t] == if !t.completed then multiset(store.tasks)[t] else 0
      ensures filter == "completed" ==>
        forall t :: multiset(r)[t] == if t.completed then multiset(store.tasks)[t] else 0
      ensures filter != "active" && filter != "completed" ==> r == store.tasks
    {
      var r := TaskList.FilteredTasks(store.tasks, filter);
      assert filter != "active" && filter != "completed" ==> r == store.tasks by {
        if filter != "active" && filter != "completed" {
          TaskList.FilterOtherShowsAll(store.tasks, filter);
        }
      }
      r
    }

    /** The "tasks remaining" figure: the length of the 'active' view. */
    function RemainingCount(): (n: nat)
      reads store
      ensures n == |TaskList.FilteredTasks(store.tasks, "active")|
      ensures n + |TaskList.FilteredTasks(store.tasks, "completed")| == |store.tasks|
    {
      TaskList.RemainingIsActiveCount(store.tasks);
      TaskList.Remaining(store.tasks)
    }

    /** First render: empty draft, filter 'all', no edit in progress. */
    constructor (s: Store.TaskStore)
      requires s.Valid()
      ensures Valid() && store == s
      ensures CurrentDraft() == TaskList.Draft("", "", "", "")
      ensures filter == "all" && editingTask == TaskList.None
    {
      store := s;
      newTaskText, startTime, endTime, date := "", "", "", "";
      filter := "all";
      editingTask := TaskList.None;
    }

    method SetNewTaskText(v: string)
      modifies this
      ensures newTaskText == v
      ensures startTime == old(startTime) && endTime == old(endTime) && date == old(date)
      ensures filter == old(filter) && editingTask == old(editingTask)
    {
      newTaskText := v;
    }

    method SetStartTime(v: string)
      modifies this
      ensures startTime == v
      ensures newTaskText == old(newTaskText) && endTime == old(endTime) && date == old(date)
      ensures filter == old(filter) && editingTask == old(editingTask)
    {
      startTime := v;
    }

    method SetEndTime(v: string)
      modifies this
      ensures endTime == v
      ensures newTaskText == old(newTaskText) && startTime == old(startTime) && date == old(date)
      ensures filter == old(filter) && editingTask == old(editingTask)
    {
      endTime := v;
    }

    method SetDate(v: string)
      modifies this
      ensures date == v
      ensures newTaskText == old(newTaskText) && startTime == old(startTime) && endTime == old(endTime)
      ensures filter == old(filter) && editingTask == old(editingTask)
    {
      date := v;
    }

    method SetFilter(f: string)
      modifies this
      ensures filter == f
      ensures CurrentDraft() == old(CurrentDraft()) && editingTask == old(editingTask)
    {
      filter := f;
    }

    /** The checkbox of a listed task. */
    method ToggleTask(id: int)
      requires Valid()
      modifies store
      ensures Valid()
      ensures store.tasks == TaskList.ToggleTask(old(store.tasks), id)
      ensures TaskList.NonBlankTexts(old(store.tasks)) ==> TaskList.NonBlankTexts(store.tasks)
      ensures TaskList.IdsDistinct(old(store.tasks)) ==> TaskList.IdsDistinct(store.tasks)
    {
      TaskList.ToggleInvariants(store.tasks, id);
      store.ToggleTask(id);
    }

    /** The delete button of a listed task. */
    method DeleteTask(id: int)
      requires Valid()
      modifies store
      ensures Valid()
      ensures store.tasks == TaskList.DeleteTask(old(store.tasks), id)
      ensures TaskList.NonBlankTexts(old(store.tasks)) ==> TaskList.NonBlankTexts(store.tasks)
      ensures TaskList.IdsDistinct(old(store.tasks)) ==> TaskList.IdsDistinct(store.tasks)
    {
      TaskList.DeleteInvariants(store.tasks, id);
      store.DeleteTask(id);
    }

    /** `handleSubmit`: does nothing unless the draft is submittable; then
        edits the task being edited (by its id) and ends the edit, or adds a
        new task, and in both cases empties the draft. */
    method HandleSubmit(now: int, isoNow: string)
      requires Valid()
      modifies this, store
      ensures Valid()
      ensures !TaskList.Submittable(old(CurrentDraft())) ==> unchanged(this, store)
      ensures TaskList.Submittable(old(CurrentDraft())) ==>
        CurrentDraft() == TaskList.Draft("", "", "", "") && editingTask == TaskList.None &&
        store.tasks == match old(editingTask)
          case Some(t) => TaskList.EditTask(old(store.tasks), t.id, TaskList.DraftPatch(old(CurrentDraft())))
          case None => TaskList.AddTask(old(store.tasks), old(CurrentDraft()), now, isoNow)
      ensures TaskList.Submittable(old(CurrentDraft())) && old(editingTask).None? ==>
        |store.tasks| == |old(store.tasks)| + 1
      ensures filter == old(filter)
      ensures TaskList.NonBlankTexts(old(store.tasks)) ==> TaskList.NonBlankTexts(store.tasks)
    {
      var d := CurrentDraft();
      if TaskList.Submittable(d) {
        if editingTask.Some? {
          SubmitEdit(d);
        } else {
          SubmitAdd(d, now, isoNow);
        }
        newTaskText, startTime, endTime, date := "", "", "", "";
      }
    }

    /** The editing branch of `handleSubmit`: the draft is spread over every
        task with the edited task's id, and the edit ends. */
    method SubmitEdit(d: TaskList.Draft)
      requires Valid() && editingTask.Some?
      modifies this, store
      ensures Valid()
      ensures store.tasks == TaskList.EditTask(old(store.tasks), old(editingTask).value.id, TaskList.DraftPatch(d))
      ensures editingTask == TaskList.None && CurrentDraft() == old(CurrentDraft()) && filter == old(filter)
      ensures !IsBlank(d.text) && TaskList.NonBlankTexts(old(store.tasks)) ==> TaskList.NonBlankTexts(store.tasks)
    {
      var id := editingTask.value.id;
      TaskList.EditInvariants(store.tasks, id, d);
      store.EditTask(id, TaskList.DraftPatch(d));
      editingTask := TaskList.None;
    }

    /** The adding branch of `handleSubmit`: the draft becomes a new task. */
    method SubmitAdd(d: TaskList.Draft, now: int, isoNow: string)
      requires Valid()
      modifies store
      ensures Valid()
      ensures store.tasks == TaskList.AddTask(old(store.tasks), d, now, isoNow)
      ensures TaskList.NonBlankTexts(old(store.tasks)) ==> TaskList.NonBlankTexts(store.tasks)
    {
      TaskList.AddTaskInvariants(store.tasks, d, now, isoNow);
      store.AddTask(d, now, isoNow);
    }

    /** `handleEdit(task)`: starts editing `task`, replacing any earlier
        draft and edit with the task's own fields. */
    method HandleEdit(task: TaskList.Task)
      modifies this
      ensures editingTask == TaskList.Some(task)
      ensures CurrentDraft() == TaskList.Draft(task.text, task.startTime, task.endTime, task.date)
      ensures filter == old(filter)
    {
      editingTask := TaskList.Some(task);
      newTaskText, startTime, endTime, date := task.text, task.startTime, task.endTime, task.date;
    }

    /** `handleCancel`: ends any edit and empties the draft; the list is not
        touched. */
    method HandleCancel()
      modifies this
      ensures editingTask == TaskList.None
      ensures CurrentDraft() == TaskList.Draft("", "", "", "")
      ensures filter == old(filter)
    {
      editingTask := TaskList.None;
      newTaskText, startTime, endTime, date := "", "", "", "";
    }
  }

  /** A session from empty storage: add "Write report", tick it off, rename
      it through the edit form, then delete it. */
  method Scenario(now: int, isoNow: string)
    returns (remainingAfterToggle: nat, editedId: int, editedText: string,
             finalTasks: seq<TaskList.Task>, finalSlot: Store.Slot)
    ensures remainingAfterToggle == 0
    ensures editedId == now && editedText == "Write final report"
    ensures finalTasks == [] && finalSlot == Store.Serialized([])
  {
    var mounted := Store.Open(Store.Absent);
    var s := mounted.value;
    assert s.tasks == [];
    var m := new TaskManager(s);
    m.SetNewTaskText("Write report");
    m.SetDate("2024-05-01");
    m.SetStartTime("09:00");
    m.SetEndTime("10:00");
    assert !IsWhiteSpace(m.newTaskText[0]);
    m.HandleSubmit(now, isoNow);
    var added := TaskList.Task(now, "Write report", "09:00", "10:00", "2024-05-01", false, isoNow);
    assert s.tasks == [added];

    m.ToggleTask(now);
    assert s.tasks == [added.(completed := true)];
    remainingAfterToggle := m.RemainingCount();

    m.HandleEdit(s.tasks[0]);
    m.SetNewTaskText("Write final report");
    assert !IsWhiteSpace(m.newTaskText[0]);
    m.HandleSubmit(now, isoNow);
    editedId, editedText := s.tasks[0].id, s.tasks[0].text;

    m.DeleteTask(now);
    finalTasks, finalSlot := s.tasks, s.storage;
  }
}
