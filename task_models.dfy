/** The task record and the request and response schemas of the task routes, with their field constraints. */
module TaskModels {
  import opened Wrappers
  import opened Uuids
  import opened Exceptions

  const TITLE_MIN_LENGTH := 1
  const TITLE_MAX_LENGTH := 200
  const DESCRIPTION_MAX_LENGTH := 1000

  /** The `TaskBase` constraint on a title: between 1 and 200 characters. */
  predicate ValidTitle(title: string) {
    TITLE_MIN_LENGTH <= |title| <= TITLE_MAX_LENGTH
  }

  /** The `TaskBase` constraint on a description: absent, or at most 1000 characters. */
  predicate ValidDescription(description: Option<string>) {
    description.None? || |description.value| <= DESCRIPTION_MAX_LENGTH
  }

  /**
   * `Task`: a row of the `tasks` table. Times are POSIX seconds. As a table
   * model it is not validated when built, so its title may break the
   * `TaskBase` bounds.
   */
  datatype Task = Task(
    id: Uuid,
    userId: Uuid,
    title: string,
    description: Option<string>,
    isCompleted: bool,
    createdAt: int,
    updatedAt: int)

  /** `Task(...)` with the column defaults: a fresh id (drawn by the caller), not completed, both times `now`. */
  function NewTask(id: Uuid, userId: Uuid, title: string, description: Option<string>, now: int): (t: Task)
    ensures t.id == id && t.userId == userId && t.title == title && t.description == description
    ensures !t.isCompleted && t.createdAt == now && t.updatedAt == now
  {
    Task(id, userId, title, description, false, now, now)
  }

  /** `TaskCreate`: the body of a create request. */
  datatype TaskCreate = TaskCreate(title: string, description: Option<string>) {
    predicate Valid() {
      ValidTitle(title) && ValidDescription(description)
    }
  }

  /** `TaskUpdate`: the body of an update request; each field may be left out. */
  datatype TaskUpdate = TaskUpdate(title: Option<string>, description: Option<string>) {
    predicate Valid() {
      (title.Some? ==> ValidTitle(title.value)) && ValidDescription(description)
    }
  }

  /** `TaskResponse`: the task as the routes return it. */
  datatype TaskResponse = TaskResponse(
    id: Uuid,
    userId: Uuid,
    title: string,
    description: Option<string>,
    isCompleted: bool,
    createdAt: int,
    updatedAt: int)

  /**
   * FastAPI's conversion of a task to the `TaskResponse` response model: it
   * copies every field, and since `TaskResponse` inherits the `TaskBase`
   * bounds, a task outside them fails response validation.
   */
  function ToResponse(t: Task): (r: Outcome<TaskResponse>)
    ensures r.Return? <==> ValidTitle(t.title) && ValidDescription(t.description)
    ensures r.Raise? ==> r.exception == ResponseValidationError
    ensures r.Return? ==>
      && r.value.id == t.id && r.value.userId == t.userId
      && r.value.title == t.title && r.value.description == t.description
      && r.value.isCompleted == t.isCompleted
      && r.value.createdAt == t.createdAt && r.value.updatedAt == t.updatedAt
  {
    if ValidTitle(t.title) && ValidDescription(t.description) then
      Return(TaskResponse(t.id, t.userId, t.title, t.description, t.isCompleted, t.createdAt, t.updatedAt))
    else Raise(ResponseValidationError)
  }

  /** The conversion of a list of tasks: element by element, failing if any element fails. */
  function ToResponses(ts: seq<Task>): (r: Outcome<seq<TaskResponse>>)
    ensures r.Return? <==> forall i :: 0 <= i < |ts| ==> ToResponse(ts[i]).Return?
    ensures r.Raise? ==> r.exception == ResponseValidationError
    ensures r.Return? ==> |r.value| == |ts| && forall i :: 0 <= i < |ts| ==> ToResponse(ts[i]) == Return(r.value[i])
    decreases |ts|
  {
    if ts == [] then Return([])
    else match (ToResponse(ts[0]), ToResponses(ts[1..]))
      case (Return(head), Return(tail)) => Return([head] + tail)
      case _ => Raise(ResponseValidationError)
  }
}
