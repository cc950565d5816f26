/**
 * Properties of the task service that relate several calls, stated as client
 * methods over one store: each method's postcondition follows from the
 * service's contracts alone.
 */
module TaskScenarios {
  import opened Wrappers
  import opened TaskModel
  import opened TaskService

  /** A task just created is found again by its id and owner, unchanged. */
  method CreateThenGet(store: TaskStore, payload: TaskCreate, userId: int, now: int)
    returns (created: Task, found: Result<Task, ServiceError>)
    requires store.Valid() && ValidBase(payload)
    modifies store
    ensures store.Valid()
    ensures found == Ok(created)
    ensures created.data == payload && created.userId == userId
  {
    created := store.CreateTask(payload, userId, now);
    assert store.rows[created.id] == created;
    found := store.GetTaskById(created.id, userId);
  }

  /** Nobody but the owner can reach a task: any other user gets not-found. */
  method OtherUserGetsNotFound(store: TaskStore, payload: TaskCreate, owner: int, other: int, now: int)
    returns (created: Task, found: Result<Task, ServiceError>)
    requires store.Valid() && ValidBase(payload) && other != owner
    modifies store
    ensures store.Valid()
    ensures found == Err(TaskNotFound(created.id))
  {
    created := store.CreateTask(payload, owner, now);
    found := store.GetTaskById(created.id, other);
  }

  /** Toggling twice restores the completion flag and every other data field. */
  method ToggleTwice(store: TaskStore, taskId: int, userId: int, now1: int, now2: int)
    returns (r: Result<Task, ServiceError>)
    requires store.Valid()
    modifies store
    ensures store.Valid()
    ensures Owns(old(store.rows), taskId, userId) ==>
      r.Ok? && r.value.data == old(store.rows)[taskId].data
      && taskId in store.rows && store.rows[taskId] == r.value
    ensures !Owns(old(store.rows), taskId, userId) ==>
      r == Err(TaskNotFound(taskId)) && store.rows == old(store.rows)
  {
    r := store.ToggleTaskCompletion(taskId, userId, now1);
    if r.Ok? {
      r := store.ToggleTaskCompletion(taskId, userId, now2);
    }
  }

  /** An update that sets no field leaves the row untouched, timestamps included. */
  method UpdateSettingNothing(store: TaskStore, taskId: int, userId: int, now: int)
    returns (r: Result<Task, ServiceError>)
    requires store.Valid()
    modifies store
    ensures store.Valid()
    ensures store.rows == old(store.rows)
    ensures Owns(old(store.rows), taskId, userId) ==> r == Ok(old(store.rows)[taskId])
  {
    r := store.UpdateTask(taskId, EmptyUpdate, userId, now);
  }

  /** Sending the same update again changes nothing, not even `updated_at`. */
  method RepeatedUpdate(store: TaskStore, taskId: int, patch: TaskUpdate, userId: int, now1: int, now2: int)
    returns (first: Result<Task, ServiceError>, second: Result<Task, ServiceError>)
    requires store.Valid() && ValidUpdate(patch) && !WritesNull(patch)
    modifies store
    ensures store.Valid()
    ensures first.Ok? ==> second == first && taskId in store.rows && store.rows[taskId] == first.value
  {
    first := store.UpdateTask(taskId, patch, userId, now1);
    if first.Ok? {
      PatchedIdempotent(old(store.rows)[taskId].data, patch);
    }
    second := store.UpdateTask(taskId, patch, userId, now2);
  }

  /** After a delete the task is gone for its owner too. */
  method DeleteThenGet(store: TaskStore, taskId: int, userId: int)
    returns (deleted: Result<bool, ServiceError>, found: Result<Task, ServiceError>)
    requires store.Valid()
    modifies store
    ensures store.Valid()
    ensures deleted == Ok(true) <==> Owns(old(store.rows), taskId, userId)
    ensures found == Err(TaskNotFound(taskId))
  {
    deleted := store.DeleteTask(taskId, userId);
    found := store.GetTaskById(taskId, userId);
  }

  /**
   * A walk-through on a fresh table: user 1 creates "Buy milk" (id 1),
   * toggles it, user 2 cannot see it, user 1 deletes it and then cannot see it.
   */
  method Walkthrough() {
    var store := new TaskStore();
    var t := store.CreateTask(TaskBase("Buy milk", None, false), 1, 0);
    assert t.id == 1;
    var toggled := store.ToggleTaskCompletion(1, 1, 1);
    assert toggled.Ok? && toggled.value.data.completed;
    var found := store.GetTaskById(1, 2);
    assert found == Err(TaskNotFound(1));
    var deleted := store.DeleteTask(1, 1);
    assert deleted == Ok(true);
    found := store.GetTaskById(1, 1);
    assert found == Err(TaskNotFound(1));
  }
}
