# Ownership-scoped task table of the todo_app backend, in Dafny

This project models the task service of the todo_app backend: a table of
tasks, each owned by one user, and six operations on it. The operations are
create, get one, list a user's tasks, partial update, delete and toggle
completion. Every operation that names a task looks it up by the pair
(task id, owner id). When the pair does not resolve, the operation fails with
`TaskNotFound(taskId)`. This also happens when the id exists but belongs to
another user, so a permission failure always shows up as not-found.

Files:

- `wrappers.dfy`: `Option` and `Result`.
- `task_model.dfy` (module `TaskModel`, from `backend/src/models/task.py`):
  - `TaskBase` holds title, description and completed.
  - A stored `Task` adds the id, the owner and two timestamps.
  - The create view is exactly `TaskBase`, so it carries no id and no owner.
  - A request body is a `Payload` whose fields are each `Unset` (absent), `Set(None)` (JSON null) or `Set(Some(v))`.
  - The field constraints are predicates: a title of 1 to 255 characters, and a description that is null or at most 1000 characters.
  - `ParseCreate` validates a create body and applies the defaults: no description, and `completed = false`.
- `task_service.dfy` (module `TaskService`, from `backend/src/services/task_service.py`):
  - The database session is a `TaskStore` object with three fields: `rows` (a map from id to row), `order` (a row order the model fixes: creation order, kept by update and toggle) and `nextId` (the primary-key sequence).
  - Each service function is a method on the store.
  - `update_task` applies its payload with a loop of field assignments. `ApplyPresentFields` models that loop and is proved equal to the field-by-field reference `Patched`.
  - Every method that changes the table also proves ownership isolation: no other user's list of tasks changes.
- `task_scenarios.dfy` (module `TaskScenarios`): client methods that combine several calls. They cover create-then-get, another user's get, toggle twice, the empty update, a repeated update, delete-then-get, and a walk-through on a fresh table.

Modelling decisions:

- A clock reading is an `int` parameter `now`.
- `created_at` and `updated_at` are both `now` at creation.
- The column's `onupdate` (`backend/src/models/task.py:19`) fires only when an UPDATE statement is issued. The session issues no UPDATE when the assignments leave every column as it was. So `updated_at` becomes `now` exactly when the row's data changes. An update that sets no field, or that only repeats the current values, leaves the row unchanged, timestamps included. Toggling always changes the row, so it always refreshes `updated_at`.
- `TaskUpdate` declares all three fields `Optional`, so an explicit null passes validation. For `description`, a null clears the description. `title` and `completed` are non-optional columns of the table. A null in either is refused by the NOT NULL constraint at commit, and nothing is stored. The model returns `NullConstraint(Title)` or `NullConstraint(Completed)` and leaves the table unchanged. The not-found check comes first, as in the source.
- Ids come from a counter that starts at 1 and never reuses a value.
- A string's length counts characters (Unicode scalar values).

## Model

| member | source | states |
|---|---|---|
| `TaskModel.ParseCreate` | backend/src/models/task.py:9-26 | A create body is accepted iff the title is present, non-null and 1–255 characters, the description is absent, null or at most 1000 characters, and completed is not null. An accepted body gives a valid `TaskBase` that carries the sent title. The description defaults to none, and `completed` is true only when sent as true, so it defaults to false. A missing title is reported as missing |
| `TaskModel.ParseCreateExplicit` | backend/src/models/task.py:9-12 | A valid base record sent with all fields explicit comes back unchanged |
| `TaskModel.ParseCreateDefaults` | backend/src/models/task.py:11-12 | A body with only a valid title gives no description and `completed = false` |
| `TaskService.Without` | backend/src/services/task_service.py:87-88 | Removing a key from the row order keeps exactly the other keys and keeps them distinct |
| `TaskService.OwnedTasks` | backend/src/services/task_service.py:50-51 | The filtered list holds only tasks of the given user and is no longer than the table |
| `TaskService.OwnedTasksSource` | backend/src/services/task_service.py:50-51 | Every listed task is the row stored under some key of the table |
| `TaskService.OwnedTasksComplete` | backend/src/services/task_service.py:50-51 | Every row of the user is in the list |
| `TaskService.OwnedTasksDistinctIds` | backend/src/services/task_service.py:50-53 | When rows are keyed by their own distinct ids, no task is listed twice |
| `TaskService.OwnedTasksFrame` | backend/src/services/task_service.py:50-51 | A user's list depends only on that user's rows: tables that agree on them list the same tasks |
| `TaskService.OwnedTasksWithout` | backend/src/services/task_service.py:81-88 | Deleting another user's row leaves a user's list as it was |
| `TaskService.OwnedTasksAppend` | backend/src/services/task_service.py:19-28 | Inserting a new row appends it to its owner's list and to no one else's |
| `TaskService.SetFields` | backend/src/services/task_service.py:67 | The present fields of the update in declaration order: each assignment writes the payload's value for its field, and there is none exactly when the payload is empty |
| `TaskService.Patched` | backend/src/models/task.py:36-39 | Applying a valid partial update to a valid record gives a valid record; the empty update is the identity |
| `TaskService.PatchedIdempotent` | backend/src/services/task_service.py:66-68 | Applying the same partial update twice equals applying it once |
| `TaskService.AssignAllIsPatched` | backend/src/services/task_service.py:66-68 | Assigning the present fields one after the other gives the field-by-field partial update |
| `TaskService.ApplyPresentFields` | backend/src/services/task_service.py:66-68 | The setattr loop's result is exactly the field-by-field partial update: present fields take the new value, absent fields keep the old one |
| `TaskService.InsertRow` | backend/src/services/task_service.py:19-28 | A valid row inserted under the next id was not in the table before. The insertion keeps the table invariant and grows only its owner's list |
| `TaskService.ReplaceRow` | backend/src/services/task_service.py:60-72 | Rewriting a row in place with the same id and owner keeps the table invariant and changes no other user's list |
| `TaskService.TaskStore.CreateTask` | backend/src/services/task_service.py:14-30 | The new row has a fresh id, the caller as owner and the payload's fields, and both timestamps are `now`. Every earlier row is unchanged. The caller's list gains the task (at its end, in the model's creation order), and no other user's list changes |
| `TaskService.TaskStore.GetTaskById` | backend/src/services/task_service.py:33-43 | Succeeds iff some row has both this id and this owner, and returns that stored row. Otherwise it fails with `TaskNotFound(taskId)`. It changes nothing |
| `TaskService.TaskStore.GetTasksByUser` | backend/src/services/task_service.py:46-53 | Returns exactly the caller's stored rows, each once, in the model's row order. An empty list is a normal result. It changes nothing |
| `TaskService.TaskStore.UpdateTask` | backend/src/services/task_service.py:56-74 | A pair that does not resolve gives not-found and leaves the table unchanged. A null title or completed gives a NOT NULL error and leaves the table unchanged. Otherwise the row's data becomes the partial update of its old data; id, owner and `created_at` are kept; `updated_at` becomes `now` iff the data changed. No other row, and no other user's list, changes |
| `TaskService.TaskStore.DeleteTask` | backend/src/services/task_service.py:77-90 | On a matching pair, exactly that row is removed and the result is `Ok(true)`. Otherwise the result is not-found and the table is unchanged. No other user's list changes |
| `TaskService.TaskStore.ToggleTaskCompletion` | backend/src/services/task_service.py:93-110 | On a matching pair, `completed` is negated, every other data field, the id, the owner and `created_at` are kept, and `updated_at` becomes `now`. Otherwise the result is not-found and the table is unchanged. No other user's list changes |
| `TaskScenarios.CreateThenGet` | backend/src/services/task_service.py:14-43 | Getting a just-created task by its id and owner returns it unchanged |
| `TaskScenarios.OtherUserGetsNotFound` | backend/src/services/task_service.py:37-41 | A user other than the owner gets not-found for an existing task |
| `TaskScenarios.ToggleTwice` | backend/src/services/task_service.py:103-104 | Toggling twice restores the completed flag and all other data fields. On a pair that does not resolve, the table is unchanged |
| `TaskScenarios.UpdateSettingNothing` | backend/src/services/task_service.py:66-72 | An update with no field set leaves the whole table unchanged, timestamps included, and returns the row as it was |
| `TaskScenarios.RepeatedUpdate` | backend/src/services/task_service.py:66-72 | Sending the same update a second time returns the same row and does not refresh `updated_at` |
| `TaskScenarios.DeleteThenGet` | backend/src/services/task_service.py:81-90 | Delete succeeds iff the pair resolves, and a get on the same pair afterwards fails with not-found |

## Left out

- GetTasksByUser: the order of the returned list is a model choice (creation order, unchanged by update and toggle). The query at `backend/src/services/task_service.py:50-51` has no `order_by`, so the store may return the rows in any order, and some engines move a row when it is updated. Only the set of rows returned, each once, is what the source guarantees.
- CreateTask: that the new task comes last in its owner's list follows from the same model choice of row order, not from the source.
- HTTP wiring: the FastAPI application, CORS, router mounting and table creation at startup in `backend/src/main.py`. These are framework set-up with no task logic.
- `frontend/next.config.js`: build configuration with no logic.
- Session mechanics: `commit`, `refresh` and transactions. Each operation is one atomic step on the table.
- Storage failures: the only one modelled is the NOT NULL refusal of an update. Other failures, such as a lost connection, are not.
- Concurrent requests and their last-writer-wins races are not modelled.
- The clock: the source reads `datetime.utcnow` once for `created_at` and again for `updated_at`. The model passes one `now` to both.
- Id allocation: the primary key comes from a counter that never reuses an id. A store that hands out a deleted largest id again is not modelled.
- Foreign keys: the `user_id` foreign key and the `user` relationship (`backend/src/models/task.py:17,22`) are not modelled. Authentication is not modelled either. The owner is an integer supplied by the caller.
- Validation: Pydantic's type coercion and its collection of all failing fields are not modelled. `ParseCreate` reports only the first failing field in declaration order.
- Validated payloads: the service receives them already validated. So `CreateTask` requires `ValidBase` and `UpdateTask` requires `ValidUpdate`, and neither re-checks.
- `TaskToggleComplete` (`backend/src/models/task.py:42-43`) is imported by the service but not used: toggling takes no payload.
- `InsufficientPermissionException` and `UserNotFoundException` are imported by the service but never raised, so the error type has no variant for them.
