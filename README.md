# To-do list widget: the task-list state machine

This project models the logic of a single-page to-do list (`app.js`). The
page keeps a module-level ordered array `tasks` of records
`{id, task, isCompleted}`, a snapshot `filteredTasks` taken when the
"Active" or "Completed" footer menu is clicked, and a flag
`isShowAllTasks`. Tasks can be added (new ones go to the front), edited,
toggled complete, deleted and cleared in bulk. A footer shows how many
tasks are left, and every change is written to the "tasks" slot of local
storage and appended back into the list when the page loads.

The model has three modules:

- `TaskList` (`tasks.dfy`) models the array expressions the handlers build
  as pure functions over `seq<Task>`. These are `filter` (`Filter`,
  `Active`, `Completed`, `Without`), `findIndex` (`FindIndex`), the
  slice-and-spread edit (`Edited`), the flag flip (`Toggled`) and the
  clear-completed rule (`ClearCompleted`). Lemmas state what each keeps:
  order, ids, counts and uniqueness of ids.
- `Decimal` (`decimal.dfy`) models `${n}`, the decimal rendering of a
  non-negative count, and reading it back.
- `TodoApp` (`app.dfy`) is the page state as a class `TodoList`. Its fields
  are `tasks`, `filteredTasks`, `showAll`, the local-storage slot
  `storage` and the footer text `itemsLeftText`. It has one method per
  handler. `Valid()` says two things hold after every handler: reloading
  the page would restore exactly the current list, and the footer shows the
  current count. `Shown()` is the list `displayTasks` renders: `tasks`, or
  the snapshot when a filter is active.

The inputs the browser supplies become parameters:
- The id `Date.now()` would give is the `freshId` argument of `Submit`. It
  must not already be in the list.
- The hidden form field is an `Option<int>`. `Some(id)` selects the edit
  path.
- The parsed contents of local storage are a `Slot`. It is either
  `TaskArray(items)` or `NotAnArray`, which covers a missing key and any
  non-array value.
- The footer menu that was clicked is a `Menu`.

Edit and toggle need their id to be present, so both cases are
preconditions, not error results. For a missing id, `find` gives
`undefined` and the toggle throws. The edit does not throw: `findIndex`
gives -1 and `editedItem` is `undefined`, so the new array is
`tasks.slice(0, -1)`, then a record `{task: text}` with no id and no flag,
then all of `tasks`. A list of n ≥ 1 tasks becomes 2n entries.

Only the literal empty text is rejected. Text made only of spaces is
accepted.

## Model

| member | source | states |
|---|---|---|
| `TaskList.Active` | app.js:213-215 | the result is no longer than the list and holds exactly its incomplete tasks |
| `TaskList.Completed` | app.js:221-223 | the result is no longer than the list and holds exactly its completed tasks |
| `TaskList.CountLeft` | app.js:145 | the items-left count plus the number of completed tasks is the length of the list |
| `TaskList.Without` | app.js:184 | the result is no longer than the list and holds exactly the tasks whose id differs |
| `TaskList.ClearCompleted` | app.js:159-165 | the result is no longer than the list and holds exactly its incomplete tasks |
| `TaskList.FindIndex` | app.js:35 | -1 exactly when no task has the id; otherwise the position of the first task carrying it |
| `TaskList.Filter` | app.js:213-215 | the result is no longer than the input and holds exactly the input's elements that the predicate accepts |
| `TaskList.Edited` | app.js:32-41 | same length; the task at the found index keeps its id and completion flag and takes the new text; every other position is unchanged |
| `TaskList.Toggled` | app.js:171-173 | same length and ids; the found task keeps its text and has its flag flipped; every other position is unchanged |
| `TaskList.EditedIsSplice` | app.js:38 | the edited list is the slice before the index, the copy with the new text, and the slice after the index |
| `TaskList.EditedKeepsIds` | app.js:32-41 | an edit leaves the id sequence unchanged, so unique ids stay unique |
| `TaskList.EditedKeepsCount` | app.js:28-49 | an edit does not change the items-left count, so the footer stays correct although the edit path does not refresh it |
| `TaskList.ToggleTwice` | app.js:171-173 | toggling the same id twice gives back the original list |
| `TaskList.ToggledCount` | app.js:171-179 | a toggle moves the items-left count by exactly one, up when the task was completed and down otherwise |
| `TaskList.FilterIsSubsequence` | app.js:183-185 | a filter keeps the surviving tasks in their original relative order |
| `TaskList.FilterPartition` | app.js:207-224 | two complementary filters have lengths summing to the list's length, and their multisets add up to the list's multiset |
| `TaskList.ActiveCompletedPartition` | app.js:211-224 | the active menu holds exactly the incomplete tasks and the completed menu exactly the completed ones, each in original order; together they partition the list |
| `TaskList.WithoutSpec` | app.js:183-185 | delete keeps exactly the tasks with a different id, in order, and shortens the list by the number of tasks carrying the id |
| `TaskList.WithoutUnique` | app.js:183-185 | with unique ids, delete shortens the list by one when the id is present and by zero otherwise |
| `TaskList.FilterKeepsUnique` | app.js:159-165 | filtering (delete, clear completed) never introduces a duplicate id |
| `TaskList.ClearIsActive` | app.js:159-165 | clear completed gives the incomplete tasks in order; when no task is completed the list is returned unchanged |
| `TaskList.ClearKeepsCount` | app.js:159-166 | clear completed never changes the items-left count and keeps ids unique |
| `TaskList.PrependFresh` | app.js:53-60 | putting a new incomplete task with a fresh id at the front keeps ids unique and raises the count by one |
| `Decimal.Render` | app.js:154 | the rendering of a count is non-empty, all digits, and has no leading zero |
| `Decimal.ParseRender` | app.js:154 | reading the rendered digits gives the number back |
| `Decimal.RenderThenText` | app.js:154 | a rendered number followed by text that does not start with a digit reads back as that number |
| `TodoApp.ItemsLeftLabelSpec` | app.js:151-156 | the footer label is exactly the decimal numeral of the count N (digits only, no leading zero, reading back as N) followed by " Items Left" when N > 1 and by " Item Left" otherwise |
| `TodoApp.LabelExamples` | app.js:154 | 0 gives "0 Item Left", 1 gives "1 Item Left" and 2 gives "2 Items Left" |
| `TodoApp.Restored` | app.js:126-129 | the current list is a prefix of the result; the result is longer exactly when the slot holds an array with at least one element, and then what follows the prefix is exactly that array |
| `TodoApp.SyncedReloads` | app.js:118-129 | when the slot holds the list, or the list is empty and the slot holds nothing restorable, restoring into an empty list gives the list |
| `TodoApp.ReloadRoundTrip` | app.js:118-129 | restoring a saved list into an empty list gives that list back |
| `TodoApp.TodoList.constructor` | app.js:9-13 | page load starts with an empty list, an empty snapshot and "show all", then restores the slot; the slot then holds the list if it was restorable and is left as saved otherwise; afterwards the state is valid |
| `TodoApp.TodoList.SaveTasks` | app.js:118-120 | the slot is overwritten with the current list, so a reload would restore it |
| `TodoApp.TodoList.DisplayFooter` | app.js:138-148 | the footer text becomes the label for the number of incomplete tasks |
| `TodoApp.TodoList.RestoreFromStorage` | app.js:123-135 | the saved tasks are appended after the current ones only for a non-empty array (and then saved); otherwise the list and slot are unchanged; the footer is refreshed either way |
| `TodoApp.TodoList.Submit` | app.js:17-70 | empty text changes nothing on either path; with a hidden id the list becomes `Edited`; otherwise the new incomplete task is at index 0 and the old tasks follow in order; any non-empty submit saves the list; unique ids stay unique |
| `TodoApp.TodoList.EditTask` | app.js:28-50 | the list becomes `Edited`, the slot holds the new list, and the footer (not modified) stays correct |
| `TodoApp.TodoList.AddTask` | app.js:52-70 | the new task is prepended, the count rises by one, the slot holds the new list, and the footer is refreshed |
| `TodoApp.TodoList.ClearCompletedTasks` | app.js:159-168 | with no completed task nothing changes; otherwise the list becomes its incomplete tasks and the slot holds it; the count is the same before and after |
| `TodoApp.TodoList.CompleteTask` | app.js:171-180 | the list becomes `Toggled` and the slot holds it, the count moves by one, and ids stay unique |
| `TodoApp.TodoList.DeleteTask` | app.js:183-188 | the list becomes `Without` and the slot holds it; with unique ids it shrinks by one exactly when the id was present |
| `TodoApp.TodoList.ClickFilter` | app.js:199-228 | the list and footer never change; "all" shows the list; "active" and "completed" store and show the matching projection; every recognised click writes the list to the slot; any other click changes nothing |
| `TodoApp.BuyMilkWalkDog` | app.js:17-70 | adding "Buy milk" then "Walk dog", completing "Buy milk" and clearing leaves only "Walk dog"; the footer reads "1 Item Left"; the slot holds that list and restores it |

## Left out

- Rendering is not modelled: `listItem`, the icons, `innerHTML`, the footer's `style.display` and the CSS class changes of the footer menus. They only produce markup.
- Event wiring is not modelled: the `updateTask` custom event, the listeners and the `parseInt` of element ids and values. Each handler is one method here, and its save appears as the `SaveTasks` step that the event's storage listener performs.
- `JSON.stringify` and `JSON.parse` are not modelled; the slot holds the task values themselves. A malformed stored string makes `JSON.parse` throw, and nothing in the code catches it, so that case is not modelled either.
- `Date.now()` is not modelled. The new id is a parameter with a freshness precondition.
- `editTask` is not modelled. It only copies a task's fields into the form inputs and does not change `tasks`.
- Aliasing is not modelled: tasks are values here. In the code, the filter snapshot shares task objects with `tasks`, so toggling a task also shows up in an existing snapshot. An edit, by contrast, replaces the object, so the snapshot keeps the old text. The model's snapshot, like the code's, is not recomputed after later changes, but it never sees a toggle.
- Stored array elements are assumed to be well-formed tasks. The restore appends whatever the parsed array holds, such as numbers or records missing fields; the page itself only ever writes arrays of tasks.
- Ids are unbounded integers, not double-precision numbers.
- Unique ids are not part of `Valid()`. A restore may append stored tasks whose ids are already present, and the code does not check for this. Instead, every other handler is proved to keep unique ids unique.
- The default argument of `countLeftItems` (2) is never used by the code and is not modelled.
