# Task manager: a verified model of its task list

This project models the task list of a browser task manager written in React.
The component `TaskManager` (in `src/components/TaskManager.jsx`) has two layers:

- **The `useLocalStorageTasks` hook.** It keeps a list of task records
  `{id, text, startTime, endTime, date, completed, createdAt}` in a state cell.
  It loads that list from the browser storage slot `'tasks'` and writes the whole
  list back to the slot after every change. It offers four operations:
  `addTask`, `toggleTask`, `deleteTask` and `editTask`.
- **The component.** It keeps four draft form fields, a filter value and an
  optional "editing" task. It derives the filtered view and the "tasks remaining"
  count. Its handlers validate and submit the draft (`handleSubmit`), start an edit
  (`handleEdit`) and cancel one (`handleCancel`).

The model has five modules:

| file | module | what it holds | form |
|---|---|---|---|
| `JsString.dfy` | `JsString` | ECMAScript `String.prototype.trim` and the blank test the guards use | functions |
| `Seqs.dfy` | `Seqs` | `filter` and `map` on sequences, the subsequence relation, and facts about them | functions and lemmas |
| `TaskList.dfy` | `TaskList` | the task records, the four list transforms, the filtered view, the remaining count, two list invariants (distinct ids, non-blank texts) and the lemmas about them | functions and lemmas |
| `Store.dfy` | `Store` | the storage slot, loading it, and class `TaskStore` (the hook) | class |
| `Controller.dfy` | `Controller` | class `TaskManager` (the component's state cells and handlers) and a client session, `Scenario` | class |

The transforms build new lists with spread, `map` and `filter`, and change nothing
in place, so they are pure functions on `seq<Task>`. The hook and the component
overwrite state cells step by step. They are classes whose methods reassign fields.
Each method's `ensures` ties the new state to the pure functions of the old state.

How the model treats the source:

- **Clocks are inputs.** `Date.now()` and `new Date().toISOString()` are the
  parameters `now` and `isoNow`.
- **Ids can repeat.** The source takes the id from the clock, so two tasks can
  share an id. The model states no uniqueness except under an explicit freshness
  precondition (`AddTaskInvariants`, `AddAllIdsDistinct`).
- **Duplicate ids are all affected.** `toggleTask`, `deleteTask` and `editTask`
  act on every task whose id matches, not only the first one.
- **Text is stored untrimmed.** Only the guards call `trim()` (lines 21 and 85);
  the raw draft text is what gets stored (line 26).
- **Submitting.** A submission is refused unless all four draft fields are filled
  in and the text is not blank (line 85). `handleSubmit` checks this before it calls
  `addTask`, and `addTask` checks the text again.
- **Storage.** The slot is modelled abstractly: it is absent, the empty string, a
  serialized task list, or malformed text. `JSON.parse` is modelled by `Load`. The
  call at line 11 is unguarded, so text that does not parse throws: `Load` returns
  `Err(ParseError)` for it, and `Store.Open` fails.
- **Persistence.** The persist effect (`useEffect` on `tasks`) is the assignment
  `storage := Serialized(tasks)` that ends every `TaskStore` method, including the
  mount. `TaskStore.Valid()` says that a reload would give back the current list.

## Model

| member | source | states |
|---|---|---|
| `JsString.LeadingSpace` | src/components/TaskManager.jsx:21 | the count of leading white space: everything before it is white space, the code point at it is not |
| `JsString.TrailingSpace` | src/components/TaskManager.jsx:21 | the count of trailing white space: everything after it is white space, the code point before it is not |
| `JsString.Trim` | src/components/TaskManager.jsx:21 | `trim()` is a stretch of its input with only white space outside it; it is empty exactly when every code point is white space, and otherwise starts and ends with a non-white-space code point |
| `Seqs.Select` | src/components/TaskManager.jsx:48 | `filter` gives a subsequence of its input, no longer than it, every kept element passes the predicate, and each value occurs as often as in the input if it passes and not at all if it fails |
| `Seqs.MapSeq` | src/components/TaskManager.jsx:40-42 | `map` keeps the length and puts `f` of the i-th input at position i |
| `Seqs.SelectKeepsAll` | src/components/TaskManager.jsx:79 | a filter that keeps every element returns its input |
| `Seqs.SelectAgree` | src/components/TaskManager.jsx:274 | two filter callbacks that agree on the elements give the same result |
| `Seqs.SelectTwice` | src/components/TaskManager.jsx:48 | filtering twice with the same callback equals filtering once |
| `Seqs.SelectSplit` | src/components/TaskManager.jsx:77-78 | a filter and its complement split the input: their lengths add up to its length |
| `Seqs.SubsequenceMembers` | src/components/TaskManager.jsx:48 | every element of a subsequence is an element of the sequence |
| `TaskList.Submittable` | src/components/TaskManager.jsx:85 | the submit guard holds exactly when the text has a non-white-space code point and the start time, end time and date are all non-empty |
| `TaskList.Merge` | src/components/TaskManager.jsx:55 | `{...task, ...patch}`: each field the patch has replaces the task's, each field it lacks keeps the task's value |
| `TaskList.AddTask` | src/components/TaskManager.jsx:20-35 | a blank text leaves the list unchanged; otherwise exactly one task is appended at the end, with the raw text, the given times and date, `completed = false`, id `now` and `createdAt` `isoNow`, and the earlier tasks stay unchanged and in order |
| `TaskList.AddTaskInvariants` | src/components/TaskManager.jsx:25 | adding keeps texts non-blank, and keeps ids distinct when the clock reading is not already an id |
| `TaskList.AddAllLength` | src/components/TaskManager.jsx:20-35 | a run of adds grows the list by exactly the number of non-blank texts |
| `TaskList.AddAllIdsDistinct` | src/components/TaskManager.jsx:25 | a run of adds keeps ids distinct when the clock readings strictly increase and exceed every stored id |
| `TaskList.ToggleTask` | src/components/TaskManager.jsx:38-44 | the length is kept; every task whose id matches has `completed` flipped; no other field and no other task changes |
| `TaskList.ToggleTwice` | src/components/TaskManager.jsx:38-44 | toggling the same id twice gives back the original list |
| `TaskList.ToggleUnknownId` | src/components/TaskManager.jsx:40-42 | toggling an id no task has leaves the list unchanged |
| `TaskList.ToggleInvariants` | src/components/TaskManager.jsx:38-44 | toggling keeps texts non-blank and ids distinct |
| `TaskList.DeleteTask` | src/components/TaskManager.jsx:47-49 | the result is an order-preserving subsequence that holds no task with the id and every other task as often as before |
| `TaskList.DeleteTwice` | src/components/TaskManager.jsx:47-49 | a second delete of the same id changes nothing |
| `TaskList.DeleteUnknownId` | src/components/TaskManager.jsx:48 | deleting an id no task has leaves the list unchanged |
| `TaskList.SubsequenceIdsDistinct` | src/components/TaskManager.jsx:48 | a subsequence of a list with distinct ids has distinct ids |
| `TaskList.DeleteInvariants` | src/components/TaskManager.jsx:47-49 | deleting keeps texts non-blank and ids distinct |
| `TaskList.EditTask` | src/components/TaskManager.jsx:52-58 | the length and order are kept; every task with the id gets the patch spread over it; the others are unchanged |
| `TaskList.EditWithDraft` | src/components/TaskManager.jsx:87-92 | with the four-field patch from `handleSubmit`, matching tasks get the draft's text, times and date and keep id, `completed` and `createdAt`; other tasks are unchanged |
| `TaskList.EditInvariants` | src/components/TaskManager.jsx:85-92 | an edit with a draft keeps ids distinct, and keeps texts non-blank when the draft text is not blank |
| `TaskList.ShownBy` | src/components/TaskManager.jsx:76-80 | the filter callback keeps a task exactly when the filter is not 'active' or the task is open, and the filter is not 'completed' or the task is done |
| `TaskList.FilteredTasks` | src/components/TaskManager.jsx:76-80 | the view is an order-preserving subsequence; under 'active' it holds exactly the open tasks, each as often as in the list; under 'completed' exactly the done ones |
| `TaskList.FilterOtherShowsAll` | src/components/TaskManager.jsx:79 | any filter value other than 'active' and 'completed' shows the whole list unchanged |
| `TaskList.ActiveCompletedSplit` | src/components/TaskManager.jsx:77-78 | the 'active' and 'completed' views together are as long as the list |
| `TaskList.Remaining` | src/components/TaskManager.jsx:274 | the remaining count never exceeds the list length, and it is 0 exactly when every task is completed |
| `TaskList.RemainingIsActiveCount` | src/components/TaskManager.jsx:274 | the remaining count equals the length of the 'active' view and the list length minus the 'completed' view's |
| `Store.Load` | src/components/TaskManager.jsx:9-12 | an absent slot or the empty string loads as `[]`; a serialized list loads as itself; only malformed text fails |
| `Store.TaskStore.Mount` | src/components/TaskManager.jsx:9-17 | mounting with a loaded list holds that list, and the mount effect writes it to the slot |
| `Store.TaskStore.AddTask` | src/components/TaskManager.jsx:20-35 | the list becomes `addTask` of the old list, and the slot holds the new list |
| `Store.TaskStore.ToggleTask` | src/components/TaskManager.jsx:38-44 | the list becomes `toggleTask` of the old list, and the slot holds the new list |
| `Store.TaskStore.DeleteTask` | src/components/TaskManager.jsx:47-49 | the list becomes `deleteTask` of the old list, and the slot holds the new list |
| `Store.TaskStore.EditTask` | src/components/TaskManager.jsx:52-58 | the list becomes `editTask` of the old list, and the slot holds the new list |
| `Store.Open` | src/components/TaskManager.jsx:9-17 | mounting fails exactly on malformed storage; otherwise a fresh store holds the loaded list and the slot holds it too |
| `Controller.TaskManager.Visible` | src/components/TaskManager.jsx:76-80 | the rendered list is an order-preserving subsequence of the store's list; under 'active' it holds exactly the store's open tasks, each as often as in the list, under 'completed' exactly its done ones, likewise counted, and under any other filter value the whole list |
| `Controller.TaskManager.RemainingCount` | src/components/TaskManager.jsx:274 | the figure shown equals the length of the 'active' view, and with the 'completed' view's length adds up to the list length |
| `Controller.TaskManager.constructor` | src/components/TaskManager.jsx:67-73 | the first render has an empty draft, filter 'all' and no edit in progress |
| `Controller.TaskManager.SetNewTaskText` | src/components/TaskManager.jsx:138 | the text field takes the typed value; every other cell is unchanged |
| `Controller.TaskManager.SetDate` | src/components/TaskManager.jsx:149 | the date field takes the picked value; every other cell is unchanged |
| `Controller.TaskManager.SetStartTime` | src/components/TaskManager.jsx:158 | the start time takes the picked value; every other cell is unchanged |
| `Controller.TaskManager.SetEndTime` | src/components/TaskManager.jsx:167 | the end time takes the picked value; every other cell is unchanged |
| `Controller.TaskManager.SetFilter` | src/components/TaskManager.jsx:195-211 | the filter takes the chosen value; the draft and the edit state are unchanged |
| `Controller.TaskManager.ToggleTask` | src/components/TaskManager.jsx:234 | the checkbox toggles the listed task's id in the store, persisting it and keeping both list invariants |
| `Controller.TaskManager.DeleteTask` | src/components/TaskManager.jsx:259 | the delete button deletes the listed task's id from the store, persisting it and keeping both list invariants |
| `Controller.TaskManager.HandleSubmit` | src/components/TaskManager.jsx:83-107 | nothing changes unless the trimmed text and the three other fields are all non-empty; then it edits the editing task's id with the draft and ends the edit, or (with no edit in progress) appends exactly one task; either way it empties all four draft fields, keeps the filter, and keeps texts non-blank |
| `Controller.TaskManager.SubmitEdit` | src/components/TaskManager.jsx:86-93 | the editing branch: every task with the edited task's id gets the draft spread over it, persisted, and the edit ends; the draft and filter stay as they were until `handleSubmit` clears the draft |
| `Controller.TaskManager.SubmitAdd` | src/components/TaskManager.jsx:94-101 | the adding branch: the store's list becomes `addTask` of the old list with the draft, persisted, keeping texts non-blank |
| `Controller.TaskManager.HandleEdit` | src/components/TaskManager.jsx:109-115 | the task becomes the one being edited and its four fields replace the draft |
| `Controller.TaskManager.HandleCancel` | src/components/TaskManager.jsx:117-123 | the edit ends and the draft is emptied; the list and its slot are untouched (the method may modify only the component) |
| `Controller.Scenario` | src/components/TaskManager.jsx:83-123 | starting from empty storage: add "Write report", toggle it (remaining count 0), edit its text (id kept, text updated), delete it; the list is then `[]` and the slot holds `[]` |

## Left out

- The JSX rendering, the CSS classes and the `Button` component: they are presentation.
- `e.preventDefault()` in `handleSubmit`: it is browser event handling.
- JSON text and its parsing: the slot holds the list itself (`Serialized`), or the
  marker `Malformed` for text that does not parse as JSON. In the source, JSON that
  parses but is not an array (`null`, a boolean, a number, a string, an object) loads, and then
  `tasks.filter` at line 76 throws. The model treats that case as `Malformed` too.
- A slot holding a JSON array whose elements are not task records (`[1]`, `[{}]`,
  `[{"id":"a"}]`) loads in the source, and the component mounts and renders. Such
  slots have no `Slot` value in the model.
- `localStorage.setItem` at line 16 can throw, for example when the storage quota
  is exceeded. Every write in the model succeeds.
- The clock: `Date.now()` and `toISOString()` are parameters. Nothing is assumed
  about their values, except where a lemma says so in its precondition.
- JavaScript strings are UTF-16 code-unit sequences. The model is a sequence of
  Unicode code points, which gives the same result for `trim`, because every
  white-space code point lies in the Basic Multilingual Plane.
- React's scheduling: each handler runs to completion before the next event, and
  the persist effect runs before the next read of the slot. Batched updates and
  stale closures are not modelled.
- Other writers to the storage slot: the model has one owner of the slot.
- The routing shell, the pages, the footer, the layout, the post fetching
  (`src/api/fetchposts.js`) and the posts page are not part of this model.
