/**
 * The ownership-scoped task service (backend/src/services/task_service.py)
 * over an in-memory task table.
 *
 * Every operation other than create and list looks a row up by both its id
 * and its owner, and reports `TaskNotFound(taskId)` when that pair does not
 * resolve, including when the id exists under another user.
 */
module TaskService {
  import opened Wrappers
  import opened TaskModel

  datatype ServiceError =
    | TaskNotFound(taskId: int)
      /** The commit refused a null in a NOT NULL column; nothing was stored. */
    | NullConstraint(field: FieldName)

  /** The scoped lookup: a row with id `taskId` owned by `userId`. */
  predicate Owns(rows: map<int, Task>, taskId: int, userId: int) {
    taskId in rows && rows[taskId].userId == userId
  }

  /** No key occurs twice in `s`. */
  predicate Distinct(s: seq<int>) {
    forall i, j | 0 <= i < j < |s| :: s[i] != s[j]
  }

  /** A fresh key in front keeps a sequence free of repeats. */
  lemma DistinctCons(x: int, s: seq<int>)
    ensures x !in s && Distinct(s) ==> Distinct([x] + s)
  {
  }

  /** The head of a repeat-free sequence does not occur in its tail. */
  lemma DistinctTail(s: seq<int>)
    requires s != []
    ensures Distinct(s) ==> s[0] !in s[1..] && Distinct(s[1..])
  {
  }

  /** No two tasks of `ts` share an id. */
  predicate DistinctIds(ts: seq<Task>) {
    forall i, j | 0 <= i < j < |ts| :: ts[i].id != ts[j].id
  }

  /** `s` with every occurrence of `k` dropped. */
  function Without(s: seq<int>, k: int): (r: seq<int>)
    ensures forall x :: x in r <==> x in s && x != k
    ensures Distinct(s) ==> Distinct(r)
    ensures k !in s ==> r == s
  {
    if s == [] then []
    else if s[0] == k then Without(s[1..], k)
    else
      var rest := Without(s[1..], k);
      DistinctTail(s);
      DistinctCons(s[0], rest);
      [s[0]] + rest
  }

  /** The rows owned by `userId`, in the table's row order. */
  function OwnedTasks(rows: map<int, Task>, order: seq<int>, userId: int): (r: seq<Task>)
    requires forall k | k in order :: k in rows
    ensures forall t | t in r :: t.userId == userId
    ensures |r| <= |order|
  {
    if order == [] then []
    else
      var k := order[0];
      assert k in order;
      var rest := OwnedTasks(rows, order[1..], userId);
      if rows[k].userId == userId then [rows[k]] + rest else rest
  }

  /** Every task in the owned list is the row of some listed key. */
  lemma {:induction false} OwnedTasksSource(rows: map<int, Task>, order: seq<int>, userId: int, t: Task)
    returns (k: int)
    requires forall k | k in order :: k in rows
    requires t in OwnedTasks(rows, order, userId)
    ensures k in order && rows[k] == t
  {
    var first := order[0];
    assert first in order;
    if rows[first] == t {
      k := first;
    } else {
      k := OwnedTasksSource(rows, order[1..], userId, t);
    }
  }

  /** Every row of `userId` listed in `order` is in the owned list. */
  lemma {:induction false} OwnedTasksComplete(rows: map<int, Task>, order: seq<int>, userId: int, k: int)
    requires forall k | k in order :: k in rows
    requires k in order && rows[k].userId == userId
    ensures rows[k] in OwnedTasks(rows, order, userId)
  {
    if order[0] != k {
      OwnedTasksComplete(rows, order[1..], userId, k);
    }
  }

  /** With distinct keys that are the rows' ids, the owned list has distinct ids. */
  lemma {:induction false} OwnedTasksDistinctIds(rows: map<int, Task>, order: seq<int>, userId: int)
    requires forall k | k in order :: k in rows && rows[k].id == k
    requires Distinct(order)
    ensures DistinctIds(OwnedTasks(rows, order, userId))
  {
    if order != [] {
      OwnedTasksDistinctIds(rows, order[1..], userId);
      var rest := OwnedTasks(rows, order[1..], userId);
      var first := order[0];
      assert first in order;
      DistinctTail(order);
      forall t | t in rest ensures t.id != first {
        var k := OwnedTasksSource(rows, order[1..], userId, t);
        assert k in order;
      }
      var r := OwnedTasks(rows, order, userId);
      if rows[first].userId == userId {
        assert r == [rows[first]] + rest;
        forall i, j | 0 <= i < j < |r| ensures r[i].id != r[j].id {
          assert r[j] == rest[j - 1] && rest[j - 1] in rest;
          if i > 0 {
            assert r[i] == rest[i - 1];
          }
        }
      } else {
        assert r == rest;
      }
    }
  }

  /**
   * The owned list of `userId` depends only on `userId`'s rows: two tables that
   * agree on every row either of them gives to `userId` list the same tasks.
   */
  lemma {:induction false} OwnedTasksFrame(rows: map<int, Task>, rows': map<int, Task>, order: seq<int>, userId: int)
    requires forall k | k in order :: k in rows && k in rows'
    requires forall k | k in order && (rows[k].userId == userId || rows'[k].userId == userId) :: rows[k] == rows'[k]
    ensures OwnedTasks(rows, order, userId) == OwnedTasks(rows', order, userId)
  {
    if order != [] {
      var first := order[0];
      assert first in order;
      OwnedTasksFrame(rows, rows', order[1..], userId);
    }
  }

  /** Removing a row of another user leaves the owned list of `userId` as it was. */
  lemma {:induction false} OwnedTasksWithout(rows: map<int, Task>, order: seq<int>, userId: int, k: int)
    requires forall j | j in order :: j in rows
    requires k in rows ==> rows[k].userId != userId
    ensures OwnedTasks(rows - {k}, Without(order, k), userId) == OwnedTasks(rows, order, userId)
  {
    if order != [] {
      OwnedTasksWithout(rows, order[1..], userId, k);
    }
  }

  /** Appending a new row extends the owned list of its owner only. */
  lemma {:induction false} OwnedTasksAppend(rows: map<int, Task>, order: seq<int>, userId: int, t: Task)
    requires forall k | k in order :: k in rows
    requires t.id !in order
    ensures OwnedTasks(rows[t.id := t], order + [t.id], userId)
         == OwnedTasks(rows, order, userId) + (if t.userId == userId then [t] else [])
  {
    if order == [] {
      assert order + [t.id] == [t.id];
    } else {
      assert (order + [t.id])[1..] == order[1..] + [t.id];
      OwnedTasksAppend(rows, order[1..], userId, t);
    }
  }

  /** One `setattr(db_task, field, value)` of the update loop. */
  datatype Assignment =
    | AssignTitle(title: string)
    | AssignDescription(description: Option<string>)
    | AssignCompleted(completed: bool)

  function Assign(b: TaskBase, a: Assignment): TaskBase {
    match a
    case AssignTitle(title) => b.(title := title)
    case AssignDescription(description) => b.(description := description)
    case AssignCompleted(completed) => b.(completed := completed)
  }

  /** The assignments applied one after the other, from the first. */
  function AssignAll(b: TaskBase, fs: seq<Assignment>): TaskBase {
    if fs == [] then b else Assign(AssignAll(b, fs[..|fs| - 1]), fs[|fs| - 1])
  }

  /**
   * The items of `task_update.dict(exclude_unset=True)`: the present fields,
   * in declaration order.  The source assigns a null title or completed here
   * too and the commit refuses it; the model refuses it before the loop, with
   * the same outcome, so this list never carries a null for those fields.
   */
  function SetFields(u: TaskUpdate): (fs: seq<Assignment>)
    requires !WritesNull(u)
    ensures u == EmptyUpdate <==> fs == []
    ensures forall a | a in fs ::
      && (a.AssignTitle? ==> u.title == Set(Some(a.title)))
      && (a.AssignDescription? ==> u.description == Set(a.description))
      && (a.AssignCompleted? ==> u.completed == Set(Some(a.completed)))
  {
    (if u.title.Set? then [AssignTitle(u.title.value.value)] else [])
    + (if u.description.Set? then [AssignDescription(u.description.value)] else [])
    + (if u.completed.Set? then [AssignCompleted(u.completed.value.value)] else [])
  }

  /**
   * The field-by-field meaning of a partial update: a present field takes its
   * new value, an absent one keeps its old value.
   */
  function Patched(b: TaskBase, u: TaskUpdate): (r: TaskBase)
    requires !WritesNull(u)
    ensures ValidBase(b) && ValidUpdate(u) ==> ValidBase(r)
    ensures u == EmptyUpdate ==> r == b
  {
    TaskBase(
      if u.title.Set? then u.title.value.value else b.title,
      if u.description.Set? then u.description.value else b.description,
      if u.completed.Set? then u.completed.value.value else b.completed)
  }

  /** Applying the same partial update twice is applying it once. */
  lemma PatchedIdempotent(b: TaskBase, u: TaskUpdate)
    requires !WritesNull(u)
    ensures Patched(Patched(b, u), u) == Patched(b, u)
  {
  }

  /** The update loop computes exactly the field-by-field partial update. */
  lemma {:induction false} AssignAllIsPatched(b: TaskBase, u: TaskUpdate)
    requires !WritesNull(u)
    ensures AssignAll(b, SetFields(u)) == Patched(b, u)
  {
    var t := if u.title.Set? then [AssignTitle(u.title.value.value)] else [];
    var d := if u.description.Set? then [AssignDescription(u.description.value)] else [];
    var c := if u.completed.Set? then [AssignCompleted(u.completed.value.value)] else [];
    assert SetFields(u) == (t + d) + c;
    AssignAllAppend(b, t, d);
    AssignAllAppend(b, t + d, c);
    var b1 := AssignAll(b, t);
    var b2 := AssignAll(b1, d);
    AssignAllShort(b, t);
    AssignAllShort(b1, d);
    AssignAllShort(b2, c);
  }

  /** Applying a prefix and then a short suffix is applying the whole sequence. */
  lemma {:induction false} AssignAllAppend(b: TaskBase, fs: seq<Assignment>, gs: seq<Assignment>)
    requires |gs| <= 1
    ensures AssignAll(b, fs + gs) == AssignAll(AssignAll(b, fs), gs)
  {
    if gs != [] {
      assert (fs + gs)[..|fs + gs| - 1] == fs;
      AssignAllShort(AssignAll(b, fs), gs);
    } else {
      assert fs + gs == fs;
    }
  }

  /** No assignment leaves the record as it is; one assignment is one `Assign`. */
  lemma AssignAllShort(b: TaskBase, gs: seq<Assignment>)
    requires |gs| <= 1
    ensures AssignAll(b, gs) == if gs == [] then b else Assign(b, gs[0])
  {
  }

  /**
   * The loop of `update_task`: each present field of the payload is assigned
   * to the row's data in turn, which yields the field-by-field partial update.
   */
  method ApplyPresentFields(data: TaskBase, patch: TaskUpdate) returns (r: TaskBase)
    requires !WritesNull(patch)
    ensures r == Patched(data, patch)
  {
    var fields := SetFields(patch);
    r := data;
    for i := 0 to |fields|
      invariant r == AssignAll(data, fields[..i])
    {
      assert fields[..i + 1][..i] == fields[..i];
      r := Assign(r, fields[i]);
    }
    assert fields[..|fields|] == fields;
    AssignAllIsPatched(data, patch);
  }

  /**
   * The stored row after its data became `data` at time `now`: the store
   * refreshes `updated_at` when an UPDATE changes the row, and issues no
   * UPDATE when nothing changed.
   */
  function Touch(before: Task, data: TaskBase, now: int): Task {
    before.(data := data, updatedAt := if data != before.data then now else before.updatedAt)
  }

  function Toggled(b: TaskBase): TaskBase {
    b.(completed := !b.completed)
  }

  /**
   * Each row is stored under its own id, below the next id to hand out, and
   * meets the field constraints; `order` lists every row exactly once.
   */
  ghost predicate TableInvariant(rows: map<int, Task>, order: seq<int>, nextId: int) {
    && 1 <= nextId
    && (forall k | k in rows :: rows[k].id == k && 1 <= k < nextId && ValidTask(rows[k]))
    && (forall k | k in order :: k in rows)
    && (forall k | k in rows :: k in order)
    && Distinct(order)
  }

  /**
   * Rewriting one row in place, keeping its id and owner, keeps the invariant
   * and changes no other user's list.
   */
  lemma ReplaceRow(rows: map<int, Task>, order: seq<int>, nextId: int, t: Task)
    requires TableInvariant(rows, order, nextId)
    requires t.id in rows && t.userId == rows[t.id].userId && ValidTask(t)
    ensures TableInvariant(rows[t.id := t], order, nextId)
    ensures forall v | v != t.userId :: OwnedTasks(rows[t.id := t], order, v) == OwnedTasks(rows, order, v)
  {
    forall v | v != t.userId {
      OwnedTasksFrame(rows, rows[t.id := t], order, v);
    }
  }

  /** Adding a row under the next id keeps the invariant; only its owner's list grows. */
  lemma InsertRow(rows: map<int, Task>, order: seq<int>, nextId: int, t: Task)
    requires TableInvariant(rows, order, nextId)
    requires t.id == nextId && ValidTask(t)
    ensures t.id !in rows
    ensures TableInvariant(rows[t.id := t], order + [t.id], nextId + 1)
    ensures forall v ::
      OwnedTasks(rows[t.id := t], order + [t.id], v) == OwnedTasks(rows, order, v) + (if t.userId == v then [t] else [])
  {
    var order' := order + [t.id];
    forall i, j | 0 <= i < j < |order'| ensures order'[i] != order'[j] {
      if j == |order| {
        assert order'[i] == order[i] && order[i] in order;
      } else {
        assert order'[i] == order[i] && order'[j] == order[j];
      }
    }
    forall v {
      OwnedTasksAppend(rows, order, v, t);
    }
  }

  /** The task table of one database, with its row order and id sequence. */
  class TaskStore {
    var rows: map<int, Task>
    /** The ids of the rows in the order the table returns them. */
    var order: seq<int>
    /** The next id the primary-key sequence hands out. */
    var nextId: int

    ghost predicate Valid()
      reads this
    {
      TableInvariant(rows, order, nextId)
    }

    constructor ()
      ensures Valid()
      ensures rows == map[] && order == [] && nextId == 1
    {
      rows := map[];
      order := [];
      nextId := 1;
    }

    /** `create_task`: a new row owned by the caller, holding the payload's fields. */
    method CreateTask(payload: TaskCreate, userId: int, now: int) returns (t: Task)
      requires Valid() && ValidBase(payload)
      modifies this
      ensures Valid()
      ensures t.id == old(nextId) && t.id !in old(rows) && nextId == old(nextId) + 1
      ensures t.userId == userId && t.data == payload
      ensures t.createdAt == now && t.updatedAt == now
      ensures rows == old(rows)[t.id := t] && order == old(order) + [t.id]
      ensures forall v | v != userId :: OwnedTasks(rows, order, v) == old(OwnedTasks(rows, order, v))
      ensures OwnedTasks(rows, order, userId) == old(OwnedTasks(rows, order, userId)) + [t]
    {
      t := Task(nextId, userId, payload, now, now);
      InsertRow(rows, order, nextId, t);
      rows := rows[t.id := t];
      order := order + [t.id];
      nextId := nextId + 1;
    }

    /** `get_task_by_id`: the row with this id and owner, or not-found. */
    method GetTaskById(taskId: int, userId: int) returns (r: Result<Task, ServiceError>)
      requires Valid()
      ensures r.Ok? <==> exists k :: k in rows && rows[k].id == taskId && rows[k].userId == userId
      ensures r.Ok? ==> r.value.id in rows && rows[r.value.id] == r.value
      ensures r.Ok? ==> r.value.id == taskId && r.value.userId == userId
      ensures r.Err? ==> r.error == TaskNotFound(taskId)
    {
      if Owns(rows, taskId, userId) {
        r := Ok(rows[taskId]);
      } else {
        r := Err(TaskNotFound(taskId));
      }
    }

    /** `get_tasks_by_user`: exactly the caller's rows, each once, in row order. */
    method GetTasksByUser(userId: int) returns (tasks: seq<Task>)
      requires Valid()
      ensures forall t | t in tasks :: t.userId == userId && t.id in rows && rows[t.id] == t
      ensures forall k | k in rows && rows[k].userId == userId :: rows[k] in tasks
      ensures DistinctIds(tasks)
      ensures tasks == OwnedTasks(rows, order, userId)
    {
      tasks := OwnedTasks(rows, order, userId);
      forall k | k in rows && rows[k].userId == userId ensures rows[k] in tasks {
        OwnedTasksComplete(rows, order, userId, k);
      }
      forall t | t in tasks ensures t.id in rows && rows[t.id] == t {
        var k := OwnedTasksSource(rows, order, userId, t);
      }
      OwnedTasksDistinctIds(rows, order, userId);
    }

    /**
     * `update_task`: the present fields of the payload are written into the
     * caller's row, one `setattr` at a time.
     */
    method UpdateTask(taskId: int, patch: TaskUpdate, userId: int, now: int) returns (r: Result<Task, ServiceError>)
      requires Valid() && ValidUpdate(patch)
      modifies this
      ensures Valid()
      ensures order == old(order) && nextId == old(nextId)
      ensures !Owns(old(rows), taskId, userId) ==> r == Err(TaskNotFound(taskId)) && rows == old(rows)
      ensures Owns(old(rows), taskId, userId) && patch.title == Set(None) ==>
        r == Err(NullConstraint(Title)) && rows == old(rows)
      ensures Owns(old(rows), taskId, userId) && patch.title != Set(None) && patch.completed == Set(None) ==>
        r == Err(NullConstraint(Completed)) && rows == old(rows)
      ensures Owns(old(rows), taskId, userId) && !WritesNull(patch) ==>
        var before := old(rows)[taskId];
        && r.Ok?
        && r.value.id == taskId && r.value.userId == userId && r.value.createdAt == before.createdAt
        && r.value.data == Patched(before.data, patch)
        && r.value.updatedAt == (if r.value.data != before.data then now else before.updatedAt)
        && rows == old(rows)[taskId := r.value]
      ensures forall v | v != userId :: OwnedTasks(rows, order, v) == old(OwnedTasks(rows, order, v))
    {
      if !Owns(rows, taskId, userId) {
        return Err(TaskNotFound(taskId));
      }
      if patch.title == Set(None) {
        return Err(NullConstraint(Title));
      }
      if patch.completed == Set(None) {
        return Err(NullConstraint(Completed));
      }
      var before := rows[taskId];
      var data := ApplyPresentFields(before.data, patch);
      var after := Touch(before, data, now);
      ReplaceRow(rows, order, nextId, after);
      rows := rows[taskId := after];
      r := Ok(after);
    }

    /** `delete_task`: the caller's row is removed. */
    method DeleteTask(taskId: int, userId: int) returns (r: Result<bool, ServiceError>)
      requires Valid()
      modifies this
      ensures Valid()
      ensures nextId == old(nextId)
      ensures !Owns(old(rows), taskId, userId) ==>
        r == Err(TaskNotFound(taskId)) && rows == old(rows) && order == old(order)
      ensures Owns(old(rows), taskId, userId) ==>
        r == Ok(true) && rows == old(rows) - {taskId} && order == Without(old(order), taskId)
      ensures forall v | v != userId :: OwnedTasks(rows, order, v) == old(OwnedTasks(rows, order, v))
    {
      if !Owns(rows, taskId, userId) {
        return Err(TaskNotFound(taskId));
      }
      forall v | v != userId {
        OwnedTasksWithout(rows, order, v, taskId);
      }
      rows := rows - {taskId};
      order := Without(order, taskId);
      r := Ok(true);
    }

    /** `toggle_task_completion`: the caller's row has `completed` negated. */
    method ToggleTaskCompletion(taskId: int, userId: int, now: int) returns (r: Result<Task, ServiceError>)
      requires Valid()
      modifies this
      ensures Valid()
      ensures order == old(order) && nextId == old(nextId)
      ensures !Owns(old(rows), taskId, userId) ==> r == Err(TaskNotFound(taskId)) && rows == old(rows)
      ensures Owns(old(rows), taskId, userId) ==>
        var before := old(rows)[taskId];
        && r.Ok?
        && r.value.id == taskId && r.value.userId == userId && r.value.createdAt == before.createdAt
        && r.value.data == before.data.(completed := !before.data.completed)
        && r.value.updatedAt == now
        && rows == old(rows)[taskId := r.value]
      ensures forall v | v != userId :: OwnedTasks(rows, order, v) == old(OwnedTasks(rows, order, v))
    {
      if !Owns(rows, taskId, userId) {
        return Err(TaskNotFound(taskId));
      }
      var before := rows[taskId];
      var after := Touch(before, Toggled(before.data), now);
      ReplaceRow(rows, order, nextId, after);
      rows := rows[taskId := after];
      r := Ok(after);
    }
  }
}
