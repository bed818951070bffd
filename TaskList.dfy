/** The task records of the task manager and the list transforms of its
    storage hook and its view: `addTask`, `toggleTask`, `deleteTask`,
    `editTask`, the filtered view and the remaining count. Each transform
    builds a new list (spread, `map`, `filter`); none edits a list in place. */
module TaskList {
  import opened JsString
  import opened Seqs

  datatype Option<T> = None | Some(value: T)

  /** A stored task. `id` is the clock reading (milliseconds) at creation and
      `createdAt` the ISO rendering of the creation time. */
  datatype Task = Task(
    id: int,
    text: string,
    startTime: string,
    endTime: string,
    date: string,
    completed: bool,
    createdAt: string)

  /** The four form fields passed to `addTask` and, as a patch, to `editTask`. */
  datatype Draft = Draft(text: string, startTime: string, endTime: string, date: string)

  /** An object spread over a task with `{ ...task, ...patch }`: each present
      field replaces the task's field of the same name. */
  datatype Patch = Patch(
    id: Option<int>,
    text: Option<string>,
    startTime: Option<string>,
    endTime: Option<string>,
    date: Option<string>,
    completed: Option<bool>,
    createdAt: Option<string>)

  function Override<T>(current: T, o: Option<T>): T {
    match o
    case Some(v) => v
    case None => current
  }

  /** `{ ...task, ...patch }`: a field the patch has replaces the task's,
      a field it lacks keeps the task's value. */
  function Merge(t: Task, p: Patch): (r: Task)
    ensures r.id == (if p.id.Some? then p.id.value else t.id)
    ensures r.text == (if p.text.Some? then p.text.value else t.text)
    ensures r.startTime == (if p.startTime.Some? then p.startTime.value else t.startTime)
    ensures r.endTime == (if p.endTime.Some? then p.endTime.value else t.endTime)
    ensures r.date == (if p.date.Some? then p.date.value else t.date)
    ensures r.completed == (if p.completed.Some? then p.completed.value else t.completed)
    ensures r.createdAt == (if p.createdAt.Some? then p.createdAt.value else t.createdAt)
  {
    Task(Override(t.id, p.id), Override(t.text, p.text), Override(t.startTime, p.startTime),
         Override(t.endTime, p.endTime), Override(t.date, p.date),
         Override(t.completed, p.completed), Override(t.createdAt, p.createdAt))
  }

  /** The object literal `{ text, startTime, endTime, date }` built from a draft. */
  function DraftPatch(d: Draft): Patch {
    Patch(None, Some(d.text), Some(d.startTime), Some(d.endTime), Some(d.date), None, None)
  }

  /** The draft fields that `handleSubmit` accepts: the trimmed text and the
      three other fields all non-empty. */
  predicate Submittable(d: Draft)
    ensures Submittable(d) <==>
      (exists i :: 0 <= i < |d.text| && !IsWhiteSpace(d.text[i])) &&
      |d.startTime| > 0 && |d.endTime| > 0 && |d.date| > 0
  {
    !IsBlank(d.text) && d.startTime != "" && d.endTime != "" && d.date != ""
  }

  // ---------------------------------------------------------------------
  // Invariants a list may have

  /** No two tasks share an id. The source does not guarantee it. */
  ghost predicate IdsDistinct(tasks: seq<Task>) {
    forall i, j :: 0 <= i < j < |tasks| ==> tasks[i].id != tasks[j].id
  }

  /** Every task's text has something besides white space. */
  ghost predicate NonBlankTexts(tasks: seq<Task>) {
    forall i :: 0 <= i < |tasks| ==> !IsBlank(tasks[i].text)
  }

  // ---------------------------------------------------------------------
  // addTask

  /** `addTask(d)` with clock reading `now` and ISO time `isoNow`: the raw
      text is stored, only the guard trims it. */
  function AddTask(tasks: seq<Task>, d: Draft, now: int, isoNow: string): (r: seq<Task>)
    ensures IsBlank(d.text) ==> r == tasks
    ensures !IsBlank(d.text) ==>
      |r| == |tasks| + 1 && r[..|tasks|] == tasks &&
      r[|tasks|] == Task(now, d.text, d.startTime, d.endTime, d.date, false, isoNow)
  {
    if IsBlank(d.text) then tasks
    else tasks + [Task(now, d.text, d.startTime, d.endTime, d.date, false, isoNow)]
  }

  /** Adding keeps texts non-blank, and keeps ids distinct when the clock
      reading is not already an id in the list. */
  lemma AddTaskInvariants(tasks: seq<Task>, d: Draft, now: int, isoNow: string)
    ensures NonBlankTexts(tasks) ==> NonBlankTexts(AddTask(tasks, d, now, isoNow))
    ensures IdsDistinct(tasks) && (forall t :: t in tasks ==> t.id != now) ==>
      IdsDistinct(AddTask(tasks, d, now, isoNow))
  {
  }

  /** One submission to `addTask`: the draft and the two clock readings. */
  datatype AddRequest = AddRequest(draft: Draft, now: int, isoNow: string)

  /** The list after a run of `addTask` calls. */
  function AddAll(tasks: seq<Task>, reqs: seq<AddRequest>): seq<Task>
    decreases |reqs|
  {
    if reqs == [] then tasks
    else AddAll(AddTask(tasks, reqs[0].draft, reqs[0].now, reqs[0].isoNow), reqs[1..])
  }

  /** How many requests carry a text that is not blank. */
  function NonBlankCount(reqs: seq<AddRequest>): nat
    decreases |reqs|
  {
    if reqs == [] then 0
    else (if IsBlank(reqs[0].draft.text) then 0 else 1) + NonBlankCount(reqs[1..])
  }

  /** A run of adds grows the list by the number of non-blank texts. */
  lemma {:induction false} AddAllLength(tasks: seq<Task>, reqs: seq<AddRequest>)
    ensures |AddAll(tasks, reqs)| == |tasks| + NonBlankCount(reqs)
    decreases |reqs|
  {
    if reqs != [] {
      AddAllLength(AddTask(tasks, reqs[0].draft, reqs[0].now, reqs[0].isoNow), reqs[1..]);
    }
  }

  /** A run of adds keeps ids distinct when the clock readings strictly
      increase and all exceed the ids already stored. */
  lemma {:induction false} AddAllIdsDistinct(tasks: seq<Task>, reqs: seq<AddRequest>)
    requires IdsDistinct(tasks)
    requires forall i, j :: 0 <= i < j < |reqs| ==> reqs[i].now < reqs[j].now
    requires forall i, t :: 0 <= i < |reqs| && t in tasks ==> t.id < reqs[i].now
    ensures IdsDistinct(AddAll(tasks, reqs))
    decreases |reqs|
  {
    if reqs != [] {
      var next := AddTask(tasks, reqs[0].draft, reqs[0].now, reqs[0].isoNow);
      AddTaskInvariants(tasks, reqs[0].draft, reqs[0].now, reqs[0].isoNow);
      var rest := reqs[1..];
      assert forall t :: t in next ==> t in tasks || t.id == reqs[0].now;
      forall i, t | 0 <= i < |rest| && t in next
        ensures t.id < rest[i].now
      {
        assert rest[i] == reqs[i + 1];
      }
      AddAllIdsDistinct(next, rest);
    }
  }

  // ---------------------------------------------------------------------
  // toggleTask

  function FlipIfId(id: int): Task -> Task {
    (t: Task) => if t.id == id then t.(completed := !t.completed) else t
  }

  /** `toggleTask(id)`: flips `completed` on EVERY task with that id. */
  function ToggleTask(tasks: seq<Task>, id: int): (r: seq<Task>)
    ensures |r| == |tasks|
    ensures forall i :: 0 <= i < |tasks| ==>
      r[i].id == tasks[i].id && r[i].text == tasks[i].text &&
      r[i].startTime == tasks[i].startTime && r[i].endTime == tasks[i].endTime &&
      r[i].date == tasks[i].date && r[i].createdAt == tasks[i].createdAt &&
      r[i].completed == (tasks[i].completed != (tasks[i].id == id))
  {
    MapSeq(tasks, FlipIfId(id))
  }

  /** Toggling the same id twice restores the list. */
  lemma ToggleTwice(tasks: seq<Task>, id: int)
    ensures ToggleTask(ToggleTask(tasks, id), id) == tasks
  {
  }

  /** Toggling an id no task has changes nothing. */
  lemma ToggleUnknownId(tasks: seq<Task>, id: int)
    requires forall t :: t in tasks ==> t.id != id
    ensures ToggleTask(tasks, id) == tasks
  {
  }

  /** Toggling keeps both list invariants. */
  lemma ToggleInvariants(tasks: seq<Task>, id: int)
    ensures NonBlankTexts(tasks) ==> NonBlankTexts(ToggleTask(tasks, id))
    ensures IdsDistinct(tasks) ==> IdsDistinct(ToggleTask(tasks, id))
  {
  }

  // ---------------------------------------------------------------------
  // deleteTask

  function NotId(id: int): Task -> bool {
    (t: Task) => t.id != id
  }

  /** `deleteTask(id)`: removes EVERY task with that id, keeping the order of
      the others. */
  function DeleteTask(tasks: seq<Task>, id: int): (r: seq<Task>)
    ensures IsSubsequence(r, tasks)
    ensures forall t :: multiset(r)[t] == if t.id == id then 0 else multiset(tasks)[t]
  {
    Select(tasks, NotId(id))
  }

  /** A second delete of the same id changes nothing. */
  lemma DeleteTwice(tasks: seq<Task>, id: int)
    ensures DeleteTask(DeleteTask(tasks, id), id) == DeleteTask(tasks, id)
  {
    SelectTwice(tasks, NotId(id));
  }

  /** Deleting an id no task has changes nothing. */
  lemma DeleteUnknownId(tasks: seq<Task>, id: int)
    requires forall t :: t in tasks ==> t.id != id
    ensures DeleteTask(tasks, id) == tasks
  {
    SelectKeepsAll(tasks, NotId(id));
  }

  /** A subsequence of a list with distinct ids has distinct ids. */
  lemma {:induction false} SubsequenceIdsDistinct(r: seq<Task>, s: seq<Task>)
    requires IsSubsequence(r, s) && IdsDistinct(s)
    ensures IdsDistinct(r)
    decreases |s|
  {
    if r != [] {
      assert IdsDistinct(s[1..]) by {
        forall i, j | 0 <= i < j < |s| - 1 ensures s[1..][i].id != s[1..][j].id {
          assert s[1..][i] == s[i + 1] && s[1..][j] == s[j + 1];
        }
      }
      if r[0] == s[0] && IsSubsequence(r[1..], s[1..]) {
        SubsequenceIdsDistinct(r[1..], s[1..]);
        SubsequenceMembers(r[1..], s[1..]);
        forall i, j | 0 <= i < j < |r| ensures r[i].id != r[j].id {
          if i == 0 {
            assert r[j] == r[1..][j - 1];
            assert r[j] in s[1..];
            var k :| 0 <= k < |s[1..]| && s[1..][k] == r[j];
            assert s[k + 1] == r[j];
          } else {
            assert r[i] == r[1..][i - 1] && r[j] == r[1..][j - 1];
          }
        }
      } else {
        SubsequenceIdsDistinct(r, s[1..]);
      }
    }
  }

  /** Deleting keeps both list invariants. */
  lemma DeleteInvariants(tasks: seq<Task>, id: int)
    ensures NonBlankTexts(tasks) ==> NonBlankTexts(DeleteTask(tasks, id))
    ensures IdsDistinct(tasks) ==> IdsDistinct(DeleteTask(tasks, id))
  {
    var r := DeleteTask(tasks, id);
    SubsequenceMembers(r, tasks);
    if NonBlankTexts(tasks) {
      forall i | 0 <= i < |r| ensures !IsBlank(r[i].text) {
        assert r[i] in tasks;
      }
    }
    if IdsDistinct(tasks) {
      SubsequenceIdsDistinct(r, tasks);
    }
  }

  // ---------------------------------------------------------------------
  // editTask

  function MergeIfId(id: int, p: Patch): Task -> Task {
    (t: Task) => if t.id == id then Merge(t, p) else t
  }

  /** `editTask(id, patch)`: spreads the patch over EVERY task with that id. */
  function EditTask(tasks: seq<Task>, id: int, p: Patch): (r: seq<Task>)
    ensures |r| == |tasks|
    ensures forall i :: 0 <= i < |tasks| && tasks[i].id != id ==> r[i] == tasks[i]
    ensures forall i :: 0 <= i < |tasks| && tasks[i].id == id ==> r[i] == Merge(tasks[i], p)
  {
    MapSeq(tasks, MergeIfId(id, p))
  }

  /** With the patch `handleSubmit` builds, an edit replaces exactly text,
      times and date of the matching tasks; id, completion and creation time
      stay, and the other tasks are untouched. */
  lemma EditWithDraft(tasks: seq<Task>, id: int, d: Draft)
    ensures var r := EditTask(tasks, id, DraftPatch(d));
      |r| == |tasks| &&
      forall i :: 0 <= i < |tasks| ==>
        r[i].id == tasks[i].id && r[i].completed == tasks[i].completed &&
        r[i].createdAt == tasks[i].createdAt &&
        (tasks[i].id == id ==>
          r[i].text == d.text && r[i].startTime == d.startTime &&
          r[i].endTime == d.endTime && r[i].date == d.date) &&
        (tasks[i].id != id ==> r[i] == tasks[i])
  {
  }

  /** Editing with a draft keeps ids distinct, and keeps texts non-blank when
      the draft's text is not blank. */
  lemma EditInvariants(tasks: seq<Task>, id: int, d: Draft)
    ensures NonBlankTexts(tasks) && !IsBlank(d.text) ==>
      NonBlankTexts(EditTask(tasks, id, DraftPatch(d)))
    ensures IdsDistinct(tasks) ==> IdsDistinct(EditTask(tasks, id, DraftPatch(d)))
  {
  }

  // ---------------------------------------------------------------------
  // filteredTasks and the remaining count

  /** The filter callback: 'active' keeps the open tasks, 'completed' the
      done ones, any other filter value keeps everything. */
  function ShownBy(filter: string): (keep: Task -> bool)
    ensures forall t :: keep(t) <==>
      (filter != "active" || !t.completed) && (filter != "completed" || t.completed)
  {
    (t: Task) => if filter == "active" then !t.completed
         else if filter == "completed" then t.completed
         else true
  }

  /** `filteredTasks`: an order-preserving subsequence of the list. */
  function FilteredTasks(tasks: seq<Task>, filter: string): (r: seq<Task>)
    ensures IsSubsequence(r, tasks)
    ensures filter == "active" ==>
      forall t :: multiset(r)[t] == if t.completed then 0 else multiset(tasks)[t]
    ensures filter == "completed" ==>
      forall t :: multiset(r)[t] == if t.completed then multiset(tasks)[t] else 0
  {
    Select(tasks, ShownBy(filter))
  }

  /** Any filter value other than 'active' and 'completed' shows the whole list. */
  lemma FilterOtherShowsAll(tasks: seq<Task>, filter: string)
    requires filter != "active" && filter != "completed"
    ensures FilteredTasks(tasks, filter) == tasks
  {
    SelectKeepsAll(tasks, ShownBy(filter));
  }

  /** The 'active' and 'completed' views together hold every task once. */
  lemma ActiveCompletedSplit(tasks: seq<Task>)
    ensures |FilteredTasks(tasks, "active")| + |FilteredTasks(tasks, "completed")| == |tasks|
  {
    SelectSplit(tasks, ShownBy("active"), ShownBy("completed"));
  }

  predicate IsOpen(t: Task) {
    !t.completed
  }

  /** "N tasks remaining": `tasks.filter(task => !task.completed).length`.
      It never exceeds the list length, and it is 0 exactly when every task
      is completed. */
  function Remaining(tasks: seq<Task>): (n: nat)
    ensures n <= |tasks|
    ensures n == 0 <==> forall i :: 0 <= i < |tasks| ==> tasks[i].completed
  {
    var open := Select(tasks, IsOpen);
    assert open == [] <==> forall i :: 0 <= i < |tasks| ==> tasks[i].completed by {
      if open == [] {
        forall i | 0 <= i < |tasks| ensures tasks[i].completed {
          assert multiset(tasks)[tasks[i]] > 0;
          assert multiset(open)[tasks[i]] == 0;
        }
      } else {
        assert multiset(open)[open[0]] > 0;
        var k :| 0 <= k < |tasks| && tasks[k] == open[0];
        assert !tasks[k].completed;
      }
    }
    |open|
  }

  /** The remaining count is the length of the 'active' view and counts
      exactly the tasks not in the 'completed' view. */
  lemma RemainingIsActiveCount(tasks: seq<Task>)
    ensures Remaining(tasks) == |FilteredTasks(tasks, "active")|
    ensures Remaining(tasks) == |tasks| - |FilteredTasks(tasks, "completed")|
  {
    SelectAgree(tasks, IsOpen, ShownBy("active"));
    ActiveCompletedSplit(tasks);
  }
}
