/**
 * The task table and the service operations over it. The table is a map
 * from task id to row; the queries read it and the mutations reassign it.
 */
module TaskService {
  import opened Wrappers
  import opened Text
  import opened Uuids
  import opened TaskModels

  /** A task the listing query selects: owned by `userId` and matching the status filter; any other filter value selects all. */
  predicate Selected(t: Task, userId: Uuid, statusFilter: Option<string>) {
    && t.userId == userId
    && (statusFilter == Some("pending") ==> !t.isCompleted)
    && (statusFilter == Some("completed") ==> t.isCompleted)
  }

  /** Ordered by `created_at` descending. */
  predicate NewestFirst(r: seq<Task>) {
    forall i, j :: 0 <= i < j < |r| ==> r[i].createdAt >= r[j].createdAt
  }

  /** No row is listed twice. */
  predicate Distinct(r: seq<Task>) {
    forall i, j :: 0 <= i < j < |r| ==> r[i] != r[j]
  }

  /** `r` is a result of the `get_tasks` query on `rows`: exactly the selected rows, once each, newest first. */
  ghost predicate IsListing(rows: map<Uuid, Task>, userId: Uuid, statusFilter: Option<string>, r: seq<Task>) {
    && (forall t :: t in r <==> t in rows.Values && Selected(t, userId, statusFilter))
    && Distinct(r)
    && NewestFirst(r)
  }

  /** Places `t` before the first task strictly older than it. */
  function InsertNewestFirst(r: seq<Task>, t: Task): (r': seq<Task>)
    ensures |r'| == |r| + 1
    decreases |r|
  {
    if r == [] || r[0].createdAt <= t.createdAt then [t] + r
    else [r[0]] + InsertNewestFirst(r[1..], t)
  }

  /** Inserting adds `t` and keeps every task already listed. */
  lemma {:induction false} InsertKeepsElements(r: seq<Task>, t: Task)
    ensures multiset(InsertNewestFirst(r, t)) == multiset(r) + multiset{t}
    ensures forall x :: x in InsertNewestFirst(r, t) <==> x in r || x == t
    decreases |r|
  {
    if r != [] && r[0].createdAt > t.createdAt {
      InsertKeepsElements(r[1..], t);
      assert r == [r[0]] + r[1..];
    }
  }

  /** Inserting into a newest-first list keeps it newest first. */
  lemma {:induction false} InsertKeepsOrder(r: seq<Task>, t: Task)
    requires NewestFirst(r)
    ensures NewestFirst(InsertNewestFirst(r, t))
    decreases |r|
  {
    if r != [] && r[0].createdAt > t.createdAt {
      var rest := InsertNewestFirst(r[1..], t);
      InsertKeepsOrder(r[1..], t);
      InsertKeepsElements(r[1..], t);
      forall x | x in rest ensures x.createdAt <= r[0].createdAt {
        if x != t {
          var k :| 0 <= k < |r[1..]| && r[1..][k] == x;
          assert r[k + 1] == x;
        }
      }
      var r' := [r[0]] + rest;
      assert forall k :: 1 <= k < |r'| ==> r'[k] == rest[k - 1] && r'[k] in rest;
    }
  }

  /** Inserting a task not yet listed into a list without repeats leaves none. */
  lemma {:induction false} InsertKeepsDistinct(r: seq<Task>, t: Task)
    requires Distinct(r) && t !in r
    ensures Distinct(InsertNewestFirst(r, t))
    decreases |r|
  {
    if r == [] || r[0].createdAt <= t.createdAt {
      var r' := [t] + r;
      assert forall k :: 1 <= k < |r'| ==> r'[k] == r[k - 1];
    } else {
      var rest := InsertNewestFirst(r[1..], t);
      assert r[0] !in r[1..];
      InsertKeepsDistinct(r[1..], t);
      InsertKeepsElements(r[1..], t);
      var r' := [r[0]] + rest;
      assert forall k :: 1 <= k < |r'| ==> r'[k] == rest[k - 1] && r'[k] in rest;
    }
  }

  /** Python's `s.strip() or None`: the stripped text, or `None` when nothing is left. */
  function TrimmedOrNone(s: string): (r: Option<string>)
    ensures r.None? <==> forall k :: 0 <= k < |s| ==> s[k] in Whitespace
    ensures r.Some? ==> r.value == Trim(s) && r.value != []
  {
    StripEmptyIff(s, Whitespace);
    if Trim(s) == [] then None else Some(Trim(s))
  }

  /**
   * The row `create_task` adds: the given owner, the stripped title, the
   * description stripped when it is a non-empty string and `None` when it is
   * empty or absent, with the column defaults.
   */
  function CreatedTask(id: Uuid, userId: Uuid, data: TaskCreate, now: int): (t: Task)
    ensures t.id == id && t.userId == userId && t.title == Trim(data.title)
    ensures t.description == if data.description.Some? && data.description.value != [] then Some(Trim(data.description.value)) else None
    ensures !t.isCompleted && t.createdAt == now && t.updatedAt == now
  {
    var description := if data.description.Some? && data.description.value != [] then Some(Trim(data.description.value)) else None;
    NewTask(id, userId, Trim(data.title), description, now)
  }

  /**
   * The row `update_task` leaves: the title stripped when one is given, the
   * description `strip() or None` when one is given, `updated_at` set, and
   * every other column as it was.
   */
  function UpdatedTask(task: Task, data: TaskUpdate, now: int): (t: Task)
    ensures t.title == if data.title.Some? then Trim(data.title.value) else task.title
    ensures t.description == if data.description.Some? then TrimmedOrNone(data.description.value) else task.description
    ensures t.updatedAt == now
    ensures t.id == task.id && t.userId == task.userId && t.isCompleted == task.isCompleted && t.createdAt == task.createdAt
  {
    var title := if data.title.Some? then Trim(data.title.value) else task.title;
    var description := if data.description.Some? then TrimmedOrNone(data.description.value) else task.description;
    task.(title := title, description := description, updatedAt := now)
  }

  /** The row `toggle_task_completion` leaves: completion negated, `updated_at` set, every other column as it was. */
  function ToggledTask(task: Task, now: int): (t: Task)
    ensures t.isCompleted == !task.isCompleted && t.updatedAt == now
    ensures t.(isCompleted := task.isCompleted, updatedAt := task.updatedAt) == task
  {
    task.(isCompleted := !task.isCompleted, updatedAt := now)
  }

  /** Toggling twice restores the completion state; only `updated_at` moves. */
  lemma ToggleTwice(task: Task, first: int, second: int)
    ensures ToggledTask(ToggledTask(task, first), second) == task.(updatedAt := second)
  {
  }

  /** The table of tasks, keyed by id. */
  class TaskTable {
    var rows: map<Uuid, Task>

    /** Every row is stored under its own id. */
    ghost predicate Valid()
      reads this
    {
      forall id :: id in rows ==> rows[id].id == id
    }

    constructor ()
      ensures Valid() && rows == map[]
    {
      rows := map[];
    }

    /**
     * `get_task(task_id, user_id)`: the task with that id if it belongs to
     * that user; `None` when there is no such row or another user owns it.
     */
    function GetTask(taskId: Uuid, userId: Uuid): (r: Option<Task>)
      reads this
      requires Valid()
      ensures r.Some? <==> exists t :: t in rows.Values && t.id == taskId && t.userId == userId
      ensures r.Some? ==> r.value in rows.Values && r.value.id == taskId && r.value.userId == userId
    {
      if taskId in rows && rows[taskId].userId == userId then Some(rows[taskId]) else None
    }

    /** `get_tasks(user_id, status_filter)`: the user's tasks that pass the filter, newest first. */
    method GetTasks(userId: Uuid, statusFilter: Option<string>) returns (r: seq<Task>)
      requires Valid()
      ensures IsListing(rows, userId, statusFilter, r)
    {
      r := [];
      var pending := rows.Keys;
      while pending != {}
        invariant pending <= rows.Keys
        invariant forall t :: t in r <==>
          t.id in rows.Keys - pending && rows[t.id] == t && Selected(t, userId, statusFilter)
        invariant Distinct(r) && NewestFirst(r)
        decreases pending
      {
        var id :| id in pending;
        var t := rows[id];
        if Selected(t, userId, statusFilter) {
          InsertKeepsElements(r, t);
          InsertKeepsOrder(r, t);
          InsertKeepsDistinct(r, t);
          r := InsertNewestFirst(r, t);
        }
        pending := pending - {id};
      }
      forall t | t in rows.Values ensures t.id in rows && rows[t.id] == t {
        var id :| id in rows && rows[id] == t;
      }
    }

    /** `create_task(user_id, data)`: adds the new row under its fresh id; nothing else changes. */
    method CreateTask(userId: Uuid, data: TaskCreate, id: Uuid, now: int) returns (t: Task)
      requires Valid() && id !in rows
      modifies this
      ensures Valid()
      ensures t == CreatedTask(id, userId, data, now)
      ensures rows == old(rows)[id := t]
    {
      t := CreatedTask(id, userId, data, now);
      rows := rows[id := t];
    }

    /** `update_task(task, data)` on a row of the table: that row is replaced by its update; nothing else changes. */
    method UpdateTask(task: Task, data: TaskUpdate, now: int) returns (t: Task)
      requires Valid() && task.id in rows && rows[task.id] == task
      modifies this
      ensures Valid()
      ensures t == UpdatedTask(task, data, now)
      ensures rows == old(rows)[task.id := t]
    {
      t := UpdatedTask(task, data, now);
      rows := rows[task.id := t];
    }

    /** `toggle_task_completion(task)` on a row of the table. */
    method ToggleTaskCompletion(task: Task, now: int) returns (t: Task)
      requires Valid() && task.id in rows && rows[task.id] == task
      modifies this
      ensures Valid()
      ensures t == ToggledTask(task, now)
      ensures rows == old(rows)[task.id := t]
    {
      t := ToggledTask(task, now);
      rows := rows[task.id := t];
    }

    /** `delete_task(task)`: removes exactly that row. */
    method DeleteTask(task: Task)
      requires Valid() && task.id in rows && rows[task.id] == task
      modifies this
      ensures Valid()
      ensures rows == old(rows) - {task.id}
    {
      rows := rows - {task.id};
    }
  }

  /**
   * A title that is only whitespace passes `TaskCreate` validation, yet the
   * created row's title is empty, so the row no longer fits `TaskBase`.
   */
  lemma WhitespaceTitleStoredEmpty(id: Uuid, userId: Uuid, data: TaskCreate, now: int)
    requires data.Valid()
    requires forall k :: 0 <= k < |data.title| ==> data.title[k] in Whitespace
    ensures CreatedTask(id, userId, data, now).title == []
    ensures ToResponse(CreatedTask(id, userId, data, now)).Raise?
  {
    StripEmptyIff(data.title, Whitespace);
  }

  /** The same holds for an update: a whitespace-only title passes `TaskUpdate` validation and leaves a row that fails `TaskResponse`. */
  lemma WhitespaceTitleUpdateStoredEmpty(task: Task, data: TaskUpdate, now: int)
    requires data.Valid() && data.title.Some?
    requires forall k :: 0 <= k < |data.title.value| ==> data.title.value[k] in Whitespace
    ensures UpdatedTask(task, data, now).title == []
    ensures ToResponse(UpdatedTask(task, data, now)).Raise?
  {
    StripEmptyIff(data.title.value, Whitespace);
  }

  /** Stripping never lengthens, so a valid create request whose title keeps a visible character gives a row that fits `TaskBase`. */
  lemma CreatedTaskFitsResponse(id: Uuid, userId: Uuid, data: TaskCreate, now: int)
    requires data.Valid()
    requires exists k :: 0 <= k < |data.title| && data.title[k] !in Whitespace
    ensures ToResponse(CreatedTask(id, userId, data, now)).Return?
  {
    var i, j := StripSlice(data.title, Whitespace);
    StripEmptyIff(data.title, Whitespace);
    if data.description.Some? && data.description.value != [] {
      var i', j' := StripSlice(data.description.value, Whitespace);
    }
  }

  /**
   * A description of whitespace only is stored as the empty string by
   * `create_task` but as `None` by `update_task`.
   */
  lemma BlankDescriptionCreateVersusUpdate(description: string, task: Task, id: Uuid, userId: Uuid, title: string, now: int)
    requires description != []
    requires forall k :: 0 <= k < |description| ==> description[k] in Whitespace
    ensures CreatedTask(id, userId, TaskCreate(title, Some(description)), now).description == Some("")
    ensures UpdatedTask(task, TaskUpdate(None, Some(description)), now).description == None
  {
    StripEmptyIff(description, Whitespace);
  }
}
