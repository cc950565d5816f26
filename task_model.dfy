/**
 * The task record and its request views (backend/src/models/task.py).
 *
 * `TaskBase` holds the three client-editable fields; a stored `Task` adds the
 * generated id, the owner and the two timestamps.  The create view is exactly
 * `TaskBase` (no id, no owner), so the owner of a new task can only come from
 * the caller.  A request body is a `Payload` whose every field is absent,
 * JSON null, or a value.
 */
module TaskModel {
  import opened Wrappers

  const TitleMinLength: nat := 1
  const TitleMaxLength: nat := 255
  const DescriptionMaxLength: nat := 1000

  /** One field of a request body: absent (`Unset`) or present with a value. */
  datatype Patch<+T> = Unset | Set(value: T)

  /** The fields shared by every view of a task (`TaskBase`). */
  datatype TaskBase = TaskBase(title: string, description: Option<string>, completed: bool)

  /** The create view carries exactly the base fields. */
  type TaskCreate = TaskBase

  /**
   * A row of the task table, which is also what the read view exposes.
   * Timestamps are abstract clock readings.
   */
  datatype Task = Task(id: int, userId: int, data: TaskBase, createdAt: int, updatedAt: int)

  /** A JSON request body for the three base fields. */
  datatype Payload = Payload(
    title: Patch<Option<string>>,
    description: Patch<Option<string>>,
    completed: Patch<Option<bool>>)

  /**
   * The update view: every field optional and absent by default.  A present
   * field may also be null, since each is declared `Optional`.
   */
  type TaskUpdate = Payload

  datatype FieldName = Title | Description | Completed

  datatype ValidationError =
    | Missing(field: FieldName)
    | NotNullable(field: FieldName)
    | LengthOutOfRange(field: FieldName)

  predicate ValidTitle(s: string) {
    TitleMinLength <= |s| <= TitleMaxLength
  }

  predicate ValidDescription(d: Option<string>) {
    d.None? || |d.value| <= DescriptionMaxLength
  }

  /** The field constraints of `TaskBase`. */
  predicate ValidBase(b: TaskBase) {
    ValidTitle(b.title) && ValidDescription(b.description)
  }

  predicate ValidTask(t: Task) {
    ValidBase(t.data)
  }

  /** The field constraints of `TaskUpdate`: a present, non-null value is checked like in `TaskBase`. */
  predicate ValidUpdate(u: TaskUpdate) {
    && (u.title.Set? && u.title.value.Some? ==> ValidTitle(u.title.value.value))
    && (u.description.Set? ==> ValidDescription(u.description.value))
  }

  /** The update writes null into a column declared non-optional in `TaskBase`. */
  predicate WritesNull(u: TaskUpdate) {
    u.title == Set(None) || u.completed == Set(None)
  }

  /** The update payload that sets nothing. */
  const EmptyUpdate: TaskUpdate := Payload(Unset, Unset, Unset)

  /**
   * Validation of a create request into a `TaskCreate`: the title is required,
   * non-null and 1 to 255 characters; the description defaults to null and is
   * at most 1000 characters; `completed` defaults to false and may not be null.
   * The first failing field, in declaration order, is reported.
   */
  function ParseCreate(p: Payload): (r: Result<TaskCreate, ValidationError>)
    ensures r.Ok? <==>
      && p.title.Set? && p.title.value.Some? && ValidTitle(p.title.value.value)
      && (p.description.Set? ==> ValidDescription(p.description.value))
      && p.completed != Set(None)
    ensures r.Ok? ==> ValidBase(r.value) && p.title == Set(Some(r.value.title))
    ensures r.Ok? ==> r.value.description == (if p.description.Set? then p.description.value else None)
    ensures r.Ok? ==> r.value.completed == (p.completed == Set(Some(true)))
    ensures p.title == Unset ==> r == Err(Missing(Title))
    ensures p.title == Set(None) ==> r == Err(NotNullable(Title))
    ensures p.title.Set? && p.title.value.Some? && !ValidTitle(p.title.value.value) ==>
      r == Err(LengthOutOfRange(Title))
    ensures (p.title.Set? && p.title.value.Some? && ValidTitle(p.title.value.value)
             && p.description.Set? && !ValidDescription(p.description.value)) ==>
      r == Err(LengthOutOfRange(Description))
    ensures (p.title.Set? && p.title.value.Some? && ValidTitle(p.title.value.value)
             && (p.description.Set? ==> ValidDescription(p.description.value))
             && p.completed == Set(None)) ==>
      r == Err(NotNullable(Completed))
  {
    match p.title
    case Unset => Err(Missing(Title))
    case Set(None) => Err(NotNullable(Title))
    case Set(Some(title)) =>
      if !ValidTitle(title) then Err(LengthOutOfRange(Title))
      else
        var description := match p.description case Unset => None case Set(d) => d;
        if !ValidDescription(description) then Err(LengthOutOfRange(Description))
        else
          match p.completed
          case Unset => Ok(TaskBase(title, description, false))
          case Set(None) => Err(NotNullable(Completed))
          case Set(Some(completed)) => Ok(TaskBase(title, description, completed))
  }

  /** The request body that states every field of `b` explicitly. */
  function ExplicitPayload(b: TaskBase): Payload {
    Payload(Set(Some(b.title)), Set(b.description), Set(Some(b.completed)))
  }

  /** Every valid base record is accepted back unchanged when all its fields are sent. */
  lemma ParseCreateExplicit(b: TaskBase)
    requires ValidBase(b)
    ensures ParseCreate(ExplicitPayload(b)) == Ok(b)
  {
  }

  /** Sending only a title yields an open task without a description. */
  lemma ParseCreateDefaults(title: string)
    requires ValidTitle(title)
    ensures ParseCreate(Payload(Set(Some(title)), Unset, Unset)) == Ok(TaskBase(title, None, false))
  {
  }
}
