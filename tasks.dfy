/**
 * The task routes under `/{user_id}/tasks`. Each handler receives the caller
 * identity that the authentication dependency resolved; it rejects an
 * invalid body or query (422), runs the ownership guard (404), looks the
 * task up (404), acts on the table and converts the result to the route's
 * response model.
 */
module TaskRoutes {
  import opened Wrappers
  import opened Uuids
  import opened Responses
  import opened Exceptions
  import opened Security
  import opened Deps
  import opened TaskModels
  import opened TaskService

  /** The 404 a route raises when the task is missing or belongs to someone else. */
  const TaskNotFound: Exception :=
    HTTPException(HTTP_404_NOT_FOUND, ErrorDetail("NOT_FOUND", "Task not found"), map[])

  /** The `status` query parameter's pattern `^(pending|completed)$`, or no parameter at all. */
  predicate ValidStatusQuery(status: Option<string>) {
    status == None || status == Some("pending") || status == Some("completed")
  }

  /** A handler's value sent with the route's status code, or the exception it raised. */
  function Respond<T>(o: Outcome<T>, status: nat): (r: Outcome<Reply<T>>)
    ensures r.Return? <==> o.Return?
    ensures r.Return? ==> r.value == Reply(status, o.value)
    ensures r.Raise? ==> r.exception == o.exception
  {
    match o
    case Return(v) => Return(Reply(status, v))
    case Raise(e) => Raise(e)
  }

  /** No row owned by anyone but `owner` differs between `before` and `after`. */
  ghost predicate OthersUntouched(before: map<Uuid, Task>, after: map<Uuid, Task>, owner: Uuid) {
    forall id :: id in before && before[id].userId != owner ==> id in after && after[id] == before[id]
  }

  /**
   * `GET /{user_id}/tasks`: the caller's own tasks passing the status
   * filter, newest first, each converted to `TaskResponse`.
   */
  method GetTasks(table: TaskTable, userId: Uuid, currentUser: AuthenticatedUser, status: Option<string>)
    returns (r: Outcome<Reply<seq<TaskResponse>>>, ghost listed: seq<Task>)
    requires table.Valid()
    ensures !ValidStatusQuery(status) ==> r == Raise(RequestValidationError)
    ensures ValidStatusQuery(status) && userId != currentUser.id ==> r == Raise(ResourceNotFound)
    ensures ValidStatusQuery(status) && userId == currentUser.id ==>
      && IsListing(table.rows, currentUser.id, status, listed)
      && r == Respond(ToResponses(listed), HTTP_200_OK)
  {
    listed := [];
    if !ValidStatusQuery(status) {
      return Raise(RequestValidationError), listed;
    }
    var access := VerifyUserAccess(userId, currentUser);
    if access.Raise? {
      return Raise(access.exception), listed;
    }
    var tasks := table.GetTasks(userId, status);
    listed := tasks;
    r := Respond(ToResponses(tasks), HTTP_200_OK);
  }

  /**
   * `POST /{user_id}/tasks` (201): adds the task under the fresh id `newId`
   * for the caller. The row is committed before the response is built, so a
   * stored title that fails `TaskResponse` still leaves the row in place.
   */
  method CreateTask(table: TaskTable, userId: Uuid, data: TaskCreate, currentUser: AuthenticatedUser, newId: Uuid, now: int)
    returns (r: Outcome<Reply<TaskResponse>>)
    requires table.Valid() && newId !in table.rows
    modifies table
    ensures table.Valid()
    ensures !data.Valid() ==> r == Raise(RequestValidationError) && table.rows == old(table.rows)
    ensures data.Valid() && userId != currentUser.id ==> r == Raise(ResourceNotFound) && table.rows == old(table.rows)
    ensures data.Valid() && userId == currentUser.id ==>
      && table.rows == old(table.rows)[newId := CreatedTask(newId, userId, data, now)]
      && r == Respond(ToResponse(CreatedTask(newId, userId, data, now)), HTTP_201_CREATED)
    ensures OthersUntouched(old(table.rows), table.rows, currentUser.id)
  {
    if !data.Valid() {
      return Raise(RequestValidationError);
    }
    var access := VerifyUserAccess(userId, currentUser);
    if access.Raise? {
      return Raise(access.exception);
    }
    var task := table.CreateTask(userId, data, newId, now);
    r := Respond(ToResponse(task), HTTP_201_CREATED);
  }

  /** `GET /{user_id}/tasks/{task_id}`: the caller's task with that id. */
  function GetTask(table: TaskTable, userId: Uuid, taskId: Uuid, currentUser: AuthenticatedUser): (r: Outcome<Reply<TaskResponse>>)
    reads table
    requires table.Valid()
    ensures userId != currentUser.id ==> r == Raise(ResourceNotFound)
    ensures userId == currentUser.id ==>
      (r == Raise(TaskNotFound) <==> !(taskId in table.rows && table.rows[taskId].userId == currentUser.id))
    ensures r.Return? ==>
      && taskId in table.rows && table.rows[taskId].userId == currentUser.id
      && r.value.status == HTTP_200_OK
      && ToResponse(table.rows[taskId]) == Return(r.value.body)
    ensures userId == currentUser.id && taskId in table.rows && table.rows[taskId].userId == currentUser.id ==>
      r == Respond(ToResponse(table.rows[taskId]), HTTP_200_OK)
  {
    match VerifyUserAccess(userId, currentUser)
    case Raise(e) => Raise(e)
    case Return(_) =>
      match table.GetTask(taskId, userId)
      case None => Raise(TaskNotFound)
      case Some(task) => Respond(ToResponse(task), HTTP_200_OK)
  }

  /** `PUT /{user_id}/tasks/{task_id}`: applies the update to the caller's task; the row is committed before the response is built. */
  method UpdateTask(table: TaskTable, userId: Uuid, taskId: Uuid, data: TaskUpdate, currentUser: AuthenticatedUser, now: int)
    returns (r: Outcome<Reply<TaskResponse>>)
    requires table.Valid()
    modifies table
    ensures table.Valid()
    ensures !data.Valid() ==> r == Raise(RequestValidationError) && table.rows == old(table.rows)
    ensures data.Valid() && userId != currentUser.id ==> r == Raise(ResourceNotFound) && table.rows == old(table.rows)
    ensures data.Valid() && userId == currentUser.id && !(taskId in old(table.rows) && old(table.rows)[taskId].userId == userId) ==>
      r == Raise(TaskNotFound) && table.rows == old(table.rows)
    ensures data.Valid() && userId == currentUser.id && taskId in old(table.rows) && old(table.rows)[taskId].userId == userId ==>
      && table.rows == old(table.rows)[taskId := UpdatedTask(old(table.rows)[taskId], data, now)]
      && r == Respond(ToResponse(UpdatedTask(old(table.rows)[taskId], data, now)), HTTP_200_OK)
    ensures OthersUntouched(old(table.rows), table.rows, currentUser.id)
  {
    if !data.Valid() {
      return Raise(RequestValidationError);
    }
    var access := VerifyUserAccess(userId, currentUser);
    if access.Raise? {
      return Raise(access.exception);
    }
    var found := table.GetTask(taskId, userId);
    if found.None? {
      return Raise(TaskNotFound);
    }
    var updated := table.UpdateTask(found.value, data, now);
    r := Respond(ToResponse(updated), HTTP_200_OK);
  }

  /** `DELETE /{user_id}/tasks/{task_id}` (204, no body): removes the caller's task. */
  method DeleteTask(table: TaskTable, userId: Uuid, taskId: Uuid, currentUser: AuthenticatedUser)
    returns (r: Outcome<Reply<()>>)
    requires table.Valid()
    modifies table
    ensures table.Valid()
    ensures userId != currentUser.id ==> r == Raise(ResourceNotFound) && table.rows == old(table.rows)
    ensures userId == currentUser.id && !(taskId in old(table.rows) && old(table.rows)[taskId].userId == userId) ==>
      r == Raise(TaskNotFound) && table.rows == old(table.rows)
    ensures userId == currentUser.id && taskId in old(table.rows) && old(table.rows)[taskId].userId == userId ==>
      r == Return(Reply(HTTP_204_NO_CONTENT, ())) && table.rows == old(table.rows) - {taskId}
    ensures OthersUntouched(old(table.rows), table.rows, currentUser.id)
  {
    var access := VerifyUserAccess(userId, currentUser);
    if access.Raise? {
      return Raise(access.exception);
    }
    var found := table.GetTask(taskId, userId);
    if found.None? {
      return Raise(TaskNotFound);
    }
    table.DeleteTask(found.value);
    r := Return(Reply(HTTP_204_NO_CONTENT, ()));
  }

  /** `PATCH /{user_id}/tasks/{task_id}/complete`: flips the completion of the caller's task. */
  method ToggleTaskCompletion(table: TaskTable, userId: Uuid, taskId: Uuid, currentUser: AuthenticatedUser, now: int)
    returns (r: Outcome<Reply<TaskResponse>>)
    requires table.Valid()
    modifies table
    ensures table.Valid()
    ensures userId != currentUser.id ==> r == Raise(ResourceNotFound) && table.rows == old(table.rows)
    ensures userId == currentUser.id && !(taskId in old(table.rows) && old(table.rows)[taskId].userId == userId) ==>
      r == Raise(TaskNotFound) && table.rows == old(table.rows)
    ensures userId == currentUser.id && taskId in old(table.rows) && old(table.rows)[taskId].userId == userId ==>
      && table.rows == old(table.rows)[taskId := ToggledTask(old(table.rows)[taskId], now)]
      && r == Respond(ToResponse(ToggledTask(old(table.rows)[taskId], now)), HTTP_200_OK)
    ensures OthersUntouched(old(table.rows), table.rows, currentUser.id)
  {
    var access := VerifyUserAccess(userId, currentUser);
    if access.Raise? {
      return Raise(access.exception);
    }
    var found := table.GetTask(taskId, userId);
    if found.None? {
      return Raise(TaskNotFound);
    }
    var toggled := table.ToggleTaskCompletion(found.value, now);
    r := Respond(ToResponse(toggled), HTTP_200_OK);
  }

  /**
   * A request for another user's tasks and a request for a task that does
   * not exist get the same status and error code; only the message differs.
   */
  lemma DenialIndistinguishableFromMissing()
    ensures StatusOf(ResourceNotFound) == StatusOf(TaskNotFound) == HTTP_404_NOT_FOUND
    ensures ResourceNotFound.detail.code == TaskNotFound.detail.code == "NOT_FOUND"
    ensures ResourceNotFound.headers == TaskNotFound.headers == map[]
  {
  }

  /** A task owned by another user reads as missing even when the caller names their own URL. */
  lemma ForeignTaskReadsAsMissing(table: TaskTable, taskId: Uuid, currentUser: AuthenticatedUser)
    requires table.Valid()
    requires taskId in table.rows && table.rows[taskId].userId != currentUser.id
    ensures GetTask(table, currentUser.id, taskId, currentUser) == Raise(TaskNotFound)
  {
  }
}
