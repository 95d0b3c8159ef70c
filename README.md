# To-do list: task editor and task service

This project models the list logic of a single-page to-do list manager in
Dafny. The list logic has two parts.

- **The task service** (module `TaskService`, file `task_service.dfy`). It has four pure
  helpers over task records. The service's record type is declared in a file
  that is not part of this model. Its fields are taken from the component's
  task interface (src/app/app.component.ts:6-11): `id`, `title`,
  `description` and `completed`. To these the model adds `createdAt`, which
  appears in `Omit<Task, 'id' | 'createdAt'>` and in `getTasks`
  (src/app/core/services/task.service.ts:16, 26). The helpers are:
  - `AddTask` completes a new record with an id and a creation instant.
  - `UpdateTask` replaces by id.
  - `DeleteTask` filters by id.
  - `ToggleComplete` copies a record with `completed` inverted.

  None of them changes its argument. `AddTask` reads the clock twice: once for
  the id and once for the creation instant. Both readings are parameters
  (`clock`, `now`).
- **The page component** (module `App`, file `app_component.dfy`). Class
  `AppComponent` holds four fields:
  - `tasks`, a list of task objects;
  - `taskTitle` and `taskDescription`, the form fields;
  - `editingTask`, a nullable reference to the task being edited.

  Tasks are objects of class `App.Task` whose fields are assigned in place.
  The edit target is therefore an alias of a list entry, and a change made
  through it shows up in the list. `SaveTask` takes the clock reading as a
  parameter `clock`, which becomes the id of an appended task.

The methods' contracts describe the new state through `Values(tasks)`, which
is the contents of the task objects position by position. The class invariant
`Valid()` says that each task object appears in the list at most once. This
holds because new tasks are fresh objects and deletion only drops entries.
`SaveTask` and `ToggleCompletion` rely on it: a change made through a task
object that is in the list reaches exactly one list position.

The model does not require the edit target to be in the list. The component
does not require it either. If the task being edited is deleted, `editingTask`
still points to the removed object. A later `SaveTask` then writes the form into
that detached object, and no entry of the list changes.
`SaveAfterDeletingEditTarget` states this sequence of calls. Ids are never
checked for uniqueness, so no contract assumes unique ids.

Module `Subsequences` (file `subsequences.dfy`) defines order-preserving
subsequences and duplicate-free sequences. Both list models use it.

Two points about what the code does and does not do:
- No contract assumes or promises a non-empty title. The code never checks for
  one; only the form's `required` attribute does (src/app/app.component.ts:28).
- `updateTask` and `deleteTask` act on every entry with the id, as `map` and
  `filter` do (src/app/core/services/task.service.ts:36-42). The contracts
  therefore say "every" task with the id, not "the" task.

## Model

| member | source | states |
|---|---|---|
| `TaskService.AddTask` | src/app/core/services/task.service.ts:26-33 | the new record keeps the title, description and completed flag it was given; its id is the clock reading and its creation instant is the second reading |
| `TaskService.AddTaskOmitInverse` | src/app/core/services/task.service.ts:26-33 | any task is rebuilt by AddTask from its copied part, its id and its creation instant |
| `TaskService.UpdateTask` | src/app/core/services/task.service.ts:35-39 | same length; at each position the updated record if the ids match, the old task otherwise; ids by position are unchanged; the list is returned unchanged when no task has the id |
| `TaskService.UpdateTaskIdempotent` | src/app/core/services/task.service.ts:35-39 | a second update with the same record changes nothing |
| `TaskService.UpdateTaskContains` | src/app/core/services/task.service.ts:35-39 | the record is in the result exactly when some task carried its id |
| `TaskService.CountWithId` | src/app/core/services/task.service.ts:41-43 | the number of tasks with the id is at most the length and is zero exactly when no task has the id |
| `TaskService.DeleteTask` | src/app/core/services/task.service.ts:41-43 | a task is kept exactly when it was in the list and has another id; no kept task has the id; the result is an order-preserving subsequence whose length is the input length minus the number of tasks with the id; the list is returned unchanged when no task has the id |
| `TaskService.IdFreeSubsequenceBound` | src/app/core/services/task.service.ts:41-43 | no order-preserving selection free of the id is longer than the result of deleting the id |
| `TaskService.DeleteTaskUnique` | src/app/core/services/task.service.ts:41-43 | an order-preserving selection that avoids the id and drops only tasks with the id equals DeleteTask, so the contract determines the filter |
| `TaskService.DeleteTaskIdempotent` | src/app/core/services/task.service.ts:41-43 | deleting an id twice is the same as deleting it once |
| `TaskService.ToggleComplete` | src/app/core/services/task.service.ts:45-47 | the copy has the completed flag inverted and every other field unchanged |
| `TaskService.ToggleCompleteInvolutive` | src/app/core/services/task.service.ts:45-47 | toggling twice gives back the original record |
| `App.Remaining` | src/app/app.component.ts:195 | an object is kept exactly when it was in the list and its id differs; order is kept; the result is never longer; nothing changes when no object has the id |
| `App.AppComponent.constructor` | src/app/app.component.ts:157-164 | empty form and no edit target; the list holds fresh, distinct objects whose contents are the loaded records in order |
| `App.AppComponent.SaveTask` | src/app/app.component.ts:167-185 | without an edit target: one fresh task appended at the end with the clock value as id, the form text and completed false, earlier entries unchanged; with one: same list of objects, the target object gets the form text and keeps id and completed, and every list position not holding the target keeps its contents, so exactly one position changes when the target is in the list; in both modes the form is empty and the edit target null afterwards |
| `App.AppComponent.ToggleCompletion` | src/app/app.component.ts:188-191 | the given object's completed flag is inverted and its other fields kept; only list positions holding that object change, and since objects are distinct that is exactly one position when the object is in the list |
| `App.AppComponent.DeleteTask` | src/app/app.component.ts:194-197 | the list becomes the remaining objects without the id; the form fields and the edit target are untouched; objects stay distinct |
| `App.AppComponent.EditTask` | src/app/app.component.ts:200-204 | the edit target is the given object, the form holds its title and description, the list is unchanged |
| `App.AppComponent.CancelEdit` | src/app/app.component.ts:207-210 | form empty, no edit target, list unchanged |
| `App.AppComponent.ClearForm` | src/app/app.component.ts:213-216 | both form fields empty; list and edit target unchanged |
| `App.ToggleCompletionTwice` | src/app/app.component.ts:188-191 | toggling the same task twice restores that object and the contents of the whole list |
| `App.SaveAfterDeletingEditTarget` | src/app/app.component.ts:168-172 | editing a task, deleting its id and then saving leaves the list equal to the list without that id: the edit reaches only the detached object |

## Left out

- The page template, the styles and the framework decorators. They contain no logic. The form's `required` attribute is browser validation, and the model does not include it.
- Browser storage and JSON. The component's `saveToLocalStorage`, called after each save, toggle and delete, is not modelled. Neither are the service's `getTasks`/`saveTasks`, their `Date` rebuilding of `createdAt`, or the round trip through the storage slot. All of these are browser I/O through a serializer outside this model.
- App.AppComponent.constructor: models the `loadTasks` call only by its outcome. That outcome is a parameter holding the decoded records, or an empty list when the stored text is missing or empty (src/app/app.component.ts:220-223). Reading and parsing the slot are not modelled. Neither is the failure when the stored text is malformed: `JSON.parse` then throws out of the constructor (line 222), and no value of the parameter expresses that.
- The clock. `Date.now()` and `new Date()` are parameters. Nothing is assumed about them, so in particular new ids are not assumed to be unique or increasing.
- Number representation. Ids are JavaScript numbers. The model uses unbounded integers, which is exact for the integer millisecond readings of `Date.now()` that the code stores.
- The `Date` object in `createdAt`. The service stores a `Date` object (src/app/core/services/task.service.ts:30) and builds a new one from the stored value on load (line 16). The model keeps only its millisecond value as an `int`. The spread copy made by `toggleComplete` (line 46) shares the original's `Date` object. `updateTask` makes no copies: its result holds the input's own record objects and `updatedTask` itself (lines 36-38). The service model treats records as values, so this object identity is not modelled. That is harmless, because no service operation changes a record or its `Date` in place.
