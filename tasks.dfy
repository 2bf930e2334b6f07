/** The server actions on tasks (`src/app/actions/tasks.ts`). The remote
    outcome of each query is an input (`insertOk`, `writeOk`, ...), the
    signed-in user an `Option`, the clock `now`, and the id the store
    would generate `newId`. */
module TaskActions {
  import opened Wrappers
  import opened Text
  import opened Tables
  import opened Entities
  import opened Schema
  import opened ActivityActions

  const MaxTitle: nat := 500
  const TitleRequired := "Task title is required"
  const TitleTooLong := "Task title must be less than 500 characters"
  const CreateLoginRequired := "You must be logged in to create a task"
  const CreateFailed := "Failed to create task. Please try again."
  const StatusFailed := "Failed to update task status"
  const PriorityFailed := "Failed to update task priority"
  const UpdateFailed := "Failed to update task"
  const DeleteFailed := "Failed to delete task"
  const DefaultPriority: Priority := 2

  /** What a caller hands to `createTask`, before validation. */
  datatype TaskInput = TaskInput(
    title: string, description: Option<string>, status: Option<string>,
    priority: Option<int>, dueDate: Option<string>)

  /** The value `createTaskSchema` hands back. */
  datatype ValidTask = ValidTask(
    title: string, description: Option<string>, status: Status,
    priority: Priority, dueDate: Option<string>)

  /** `z.enum([...])` on an optional field: absent passes, an unknown name fails. */
  predicate StatusAccepted(s: Option<string>) {
    s.None? || ParseStatus(s.value).Some?
  }

  /** `z.number().int().min(1).max(3)` on an optional field. */
  predicate PriorityAccepted(p: Option<int>) {
    p.None? || 1 <= p.value <= 3
  }

  /** `createTaskSchema.parse(data)`: the first issue in field order, or the
      trimmed title with the status and priority defaults filled in. */
  function ValidateTaskInput(input: TaskInput): (r: Result<ValidTask>)
    ensures r.Success? <==> 1 <= |input.title| <= MaxTitle && StatusAccepted(input.status) && PriorityAccepted(input.priority)
    ensures |input.title| == 0 ==> r == Failure(Message(TitleRequired))
    ensures |input.title| > MaxTitle ==> r == Failure(Message(TitleTooLong))
    ensures 1 <= |input.title| <= MaxTitle && !StatusAccepted(input.status) ==> r == Failure(InvalidField("status"))
    ensures 1 <= |input.title| <= MaxTitle && StatusAccepted(input.status) && !PriorityAccepted(input.priority) ==>
      r == Failure(InvalidField("priority"))
    ensures r.Success? ==> r.value.title == Trim(input.title)
    ensures r.Success? ==> r.value.description == input.description && r.value.dueDate == input.dueDate
    ensures r.Success? ==> if input.status.None? then r.value.status == Todo else StatusName(r.value.status) == input.status.value
    ensures r.Success? ==> r.value.priority == if input.priority.None? then DefaultPriority else input.priority.value
  {
    var title := BoundedText(input.title, MaxTitle, TitleRequired, TitleTooLong);
    if title.Failure? then Failure(title.error)
    else if !StatusAccepted(input.status) then Failure(InvalidField("status"))
    else if !PriorityAccepted(input.priority) then Failure(InvalidField("priority"))
    else
      var status := if input.status.None? then Todo else ParseStatus(input.status.value).value;
      var priority: Priority := if input.priority.None? then DefaultPriority else input.priority.value;
      Success(ValidTask(title.value, input.description, status, priority, input.dueDate))
  }

  /** The row `createTask` inserts: empty description and due date become null. */
  function NewTaskRow(id: Id, projectId: Id, owner: Id, v: ValidTask, now: Time): (t: Task)
    ensures t.id == id && t.projectId == projectId && t.ownerId == owner
    ensures t.title == v.title && t.status == v.status && t.priority == v.priority
    ensures t.description.Some? <==> v.description.Some? && v.description.value != ""
    ensures t.dueDate.Some? <==> v.dueDate.Some? && v.dueDate.value != ""
    ensures t.description.Some? ==> t.description == v.description
    ensures t.dueDate.Some? ==> t.dueDate == v.dueDate
    ensures t.createdAt == now && t.updatedAt == now
  {
    Task(id, projectId, owner, v.title, NullIfEmpty(v.description), v.status, v.priority,
         NullIfEmpty(v.dueDate), now, now)
  }

  /** `createTask(projectId, data)`: validation comes first, then the
      sign-in check, then the insert. It logs no activity. */
  method CreateTask(db: Database, user: Option<Id>, projectId: Id, input: TaskInput,
                    insertOk: bool, newId: Id, now: Time)
    returns (res: Result<Task>)
    modifies db`tasks
    ensures ValidateTaskInput(input).Failure? ==>
      res == Failure(ValidateTaskInput(input).error) && db.tasks == old(db.tasks)
    ensures ValidateTaskInput(input).Success? && user.None? ==>
      res == Failure(Message(CreateLoginRequired)) && db.tasks == old(db.tasks)
    ensures ValidateTaskInput(input).Success? && user.Some? && !(insertOk && newId !in old(db.tasks)) ==>
      res == Failure(Message(CreateFailed)) && db.tasks == old(db.tasks)
    ensures ValidateTaskInput(input).Success? && user.Some? && insertOk && newId !in old(db.tasks) ==>
      && res == Success(NewTaskRow(newId, projectId, user.value, ValidateTaskInput(input).value, now))
      && db.tasks == old(db.tasks)[newId := res.value]
  {
    var v := ValidateTaskInput(input);
    if v.Failure? {
      return Failure(v.error);
    }
    if user.None? {
      return Failure(Message(CreateLoginRequired));
    }
    if !insertOk || newId in db.tasks {
      return Failure(Message(CreateFailed));
    }
    var row := NewTaskRow(newId, projectId, user.value, v.value, now);
    db.tasks := db.tasks[newId := row];
    res := Success(row);
  }

  /** Every row is stored under its own id. */
  ghost predicate KeyedById(tasks: map<Id, Task>) {
    forall k :: k in tasks ==> tasks[k].id == k
  }

  /** A created task is stored under its id, belongs to the requested
      project, and raises that project's count by one. */
  lemma CreatedTaskCounted(tasks: map<Id, Task>, projectId: Id, owner: Id, v: ValidTask, newId: Id, now: Time)
    requires KeyedById(tasks) && newId !in tasks
    ensures var t := NewTaskRow(newId, projectId, owner, v, now);
      && KeyedById(tasks[newId := t])
      && GetTaskCountOf(tasks[newId := t], projectId) == GetTaskCountOf(tasks, projectId) + 1
      && t in TasksOf(tasks[newId := t], projectId)
  {
    var t := NewTaskRow(newId, projectId, owner, v, now);
    var after := tasks[newId := t];
    CountAfterInsert(tasks, newId, t, (x: Task) => InProject(x, projectId));
    assert GetTaskCountOf(after, projectId) == GetTaskCountOf(tasks, projectId) + 1;
    assert newId in after && after[newId] == t;
    assert t in after.Values;
    assert t in TasksOf(after, projectId);
  }

  /** `.update({ status, updated_at }).eq("id", id).select().single()`:
      exactly one row must match, or the action reports failure. */
  method UpdateTaskStatus(db: Database, id: Id, status: Status, writeOk: bool, now: Time)
    returns (res: Result<Task>)
    modifies db`tasks
    ensures !(writeOk && id in old(db.tasks)) ==>
      res == Failure(Message(StatusFailed)) && db.tasks == old(db.tasks)
    ensures writeOk && id in old(db.tasks) ==>
      && res == Success(old(db.tasks)[id].(status := status, updatedAt := now))
      && db.tasks == old(db.tasks)[id := res.value]
  {
    if !writeOk || id !in db.tasks {
      return Failure(Message(StatusFailed));
    }
    var row := db.tasks[id].(status := status, updatedAt := now);
    db.tasks := db.tasks[id := row];
    res := Success(row);
  }

  /** `updateTaskPriority`: as `updateTaskStatus`, on the priority. */
  method UpdateTaskPriority(db: Database, id: Id, priority: Priority, writeOk: bool, now: Time)
    returns (res: Result<Task>)
    modifies db`tasks
    ensures !(writeOk && id in old(db.tasks)) ==>
      res == Failure(Message(PriorityFailed)) && db.tasks == old(db.tasks)
    ensures writeOk && id in old(db.tasks) ==>
      && res == Success(old(db.tasks)[id].(priority := priority, updatedAt := now))
      && db.tasks == old(db.tasks)[id := res.value]
  {
    if !writeOk || id !in db.tasks {
      return Failure(Message(PriorityFailed));
    }
    var row := db.tasks[id].(priority := priority, updatedAt := now);
    db.tasks := db.tasks[id := row];
    res := Success(row);
  }

  /** What a caller hands to `updateTask`: every field optional; the due
      date may also be an explicit null (`Some(None)`). */
  datatype TaskPatch = TaskPatch(
    title: Option<string>, description: Option<string>, status: Option<string>,
    priority: Option<int>, dueDate: Option<Option<string>>)

  /** The value `updateTaskSchema` hands back. */
  datatype ValidPatch = ValidPatch(
    title: Option<string>, description: Option<string>, status: Option<Status>,
    priority: Option<Priority>, dueDate: Option<Option<string>>)

  const NoChanges := ValidPatch(None, None, None, None, None)

  /** A title the update schema accepts: absent, or 1 to 500 characters. */
  predicate TitleAccepted(title: Option<string>) {
    title.None? || 1 <= |title.value| <= MaxTitle
  }

  /** `updateTaskSchema.parse(updates)`: the same field checks as on
      creation, but nothing is required and nothing is defaulted. */
  function ValidateTaskPatch(p: TaskPatch): (r: Result<ValidPatch>)
    ensures r.Success? <==> TitleAccepted(p.title) && StatusAccepted(p.status) && PriorityAccepted(p.priority)
    ensures p.title.Some? && |p.title.value| == 0 ==> r == Failure(Message(TitleRequired))
    ensures p.title.Some? && |p.title.value| > MaxTitle ==> r == Failure(Message(TitleTooLong))
    ensures TitleAccepted(p.title) && !StatusAccepted(p.status) ==> r == Failure(InvalidField("status"))
    ensures TitleAccepted(p.title) && StatusAccepted(p.status) && !PriorityAccepted(p.priority) ==>
      r == Failure(InvalidField("priority"))
    ensures r.Success? ==> (r.value.title.Some? <==> p.title.Some?)
    ensures r.Success? && p.title.Some? ==> r.value.title.value == Trim(p.title.value)
    ensures r.Success? ==> (r.value.status.Some? <==> p.status.Some?)
    ensures r.Success? && p.status.Some? ==> StatusName(r.value.status.value) == p.status.value
    ensures r.Success? ==> (r.value.priority.Some? <==> p.priority.Some?)
    ensures r.Success? && p.priority.Some? ==> r.value.priority.value == p.priority.value
    ensures r.Success? ==> r.value.description == p.description && r.value.dueDate == p.dueDate
  {
    var title :=
      if p.title.None? then Success(None)
      else match BoundedText(p.title.value, MaxTitle, TitleRequired, TitleTooLong)
           case Success(t) => Success(Some(t))
           case Failure(e) => Failure(e);
    if title.Failure? then Failure(title.error)
    else if !StatusAccepted(p.status) then Failure(InvalidField("status"))
    else if !PriorityAccepted(p.priority) then Failure(InvalidField("priority"))
    else
      var status := if p.status.None? then None else ParseStatus(p.status.value);
      var priority: Option<Priority> := if p.priority.None? then None else Some(p.priority.value);
      Success(ValidPatch(title.value, p.description, status, priority, p.dueDate))
  }

  /** The row after `.update({ ...validated, updated_at })`: each field
      the patch carries replaces the stored one, every other field stays. */
  function ApplyPatch(t: Task, p: ValidPatch, now: Time): (u: Task)
    ensures u.id == t.id && u.projectId == t.projectId && u.ownerId == t.ownerId && u.createdAt == t.createdAt
    ensures u.updatedAt == now
    ensures u.title == if p.title.Some? then p.title.value else t.title
    ensures u.description == if p.description.Some? then p.description else t.description
    ensures u.status == if p.status.Some? then p.status.value else t.status
    ensures u.priority == if p.priority.Some? then p.priority.value else t.priority
    ensures u.dueDate == if p.dueDate.Some? then p.dueDate.value else t.dueDate
  {
    t.(title := if p.title.Some? then p.title.value else t.title,
       description := if p.description.Some? then p.description else t.description,
       status := if p.status.Some? then p.status.value else t.status,
       priority := if p.priority.Some? then p.priority.value else t.priority,
       dueDate := if p.dueDate.Some? then p.dueDate.value else t.dueDate,
       updatedAt := now)
  }

  /** `updateTask(id, updates)`: validation first, then the single-row update. */
  method UpdateTask(db: Database, id: Id, patch: TaskPatch, writeOk: bool, now: Time)
    returns (res: Result<Task>)
    modifies db`tasks
    ensures ValidateTaskPatch(patch).Failure? ==>
      res == Failure(ValidateTaskPatch(patch).error) && db.tasks == old(db.tasks)
    ensures ValidateTaskPatch(patch).Success? && !(writeOk && id in old(db.tasks)) ==>
      res == Failure(Message(UpdateFailed)) && db.tasks == old(db.tasks)
    ensures ValidateTaskPatch(patch).Success? && writeOk && id in old(db.tasks) ==>
      && res == Success(ApplyPatch(old(db.tasks)[id], ValidateTaskPatch(patch).value, now))
      && db.tasks == old(db.tasks)[id := res.value]
  {
    var v := ValidateTaskPatch(patch);
    if v.Failure? {
      return Failure(v.error);
    }
    if !writeOk || id !in db.tasks {
      return Failure(Message(UpdateFailed));
    }
    var row := ApplyPatch(db.tasks[id], v.value, now);
    db.tasks := db.tasks[id := row];
    res := Success(row);
  }

  /** An empty patch only refreshes the timestamp. */
  lemma EmptyPatchTouchesOnlyTimestamp(t: Task, now: Time)
    ensures ValidateTaskPatch(TaskPatch(None, None, None, None, None)) == Success(NoChanges)
    ensures ApplyPatch(t, NoChanges, now) == t.(updatedAt := now)
  {
  }

  /** Applying the same patch twice leaves the row as applying it once. */
  lemma PatchIdempotent(t: Task, p: ValidPatch, now: Time)
    ensures ApplyPatch(ApplyPatch(t, p, now), p, now) == ApplyPatch(t, p, now)
  {
  }

  /** A patch carrying only a status writes the same row as `updateTaskStatus`. */
  lemma StatusPatchMatchesStatusUpdate(t: Task, s: Status, now: Time)
    ensures var v := ValidateTaskPatch(TaskPatch(None, None, Some(StatusName(s)), None, None));
      v == Success(ValidPatch(None, None, Some(s), None, None))
      && ApplyPatch(t, v.value, now) == t.(status := s, updatedAt := now)
  {
  }

  /** A patch carrying only a priority writes the same row as `updateTaskPriority`. */
  lemma PriorityPatchMatchesPriorityUpdate(t: Task, p: Priority, now: Time)
    ensures var v := ValidateTaskPatch(TaskPatch(None, None, None, Some(p), None));
      v == Success(ValidPatch(None, None, None, Some(p), None))
      && ApplyPatch(t, v.value, now) == t.(priority := p, updatedAt := now)
  {
  }

  /** Creation stores an empty description as null; an update stores it as
      given, and an explicit null due date clears the stored one. */
  lemma EmptyDescriptionCreateVersusUpdate(t: Task, v: ValidTask, id: Id, projectId: Id, owner: Id, now: Time)
    requires v.description == Some("")
    ensures NewTaskRow(id, projectId, owner, v, now).description == None
    ensures ApplyPatch(t, NoChanges.(description := Some("")), now).description == Some("")
    ensures ApplyPatch(t, NoChanges.(dueDate := Some(None)), now).dueDate == None
  {
  }

  /** `deleteTask(id)`: deleting an id that matches no row still succeeds. */
  method DeleteTask(db: Database, id: Id, deleteOk: bool) returns (res: Outcome)
    modifies db`tasks
    ensures !deleteOk ==> res == Refused(Message(DeleteFailed)) && db.tasks == old(db.tasks)
    ensures deleteOk ==> res == Completed && db.tasks == old(db.tasks) - {id}
  {
    if !deleteOk {
      return Refused(Message(DeleteFailed));
    }
    db.tasks := db.tasks - {id};
    res := Completed;
  }

  /** A deleted task leaves its project's list, and the count drops by one. */
  lemma DeletedTaskUncounted(tasks: map<Id, Task>, id: Id)
    requires id in tasks
    ensures var p := tasks[id].projectId;
      && GetTaskCountOf(tasks - {id}, p) == GetTaskCountOf(tasks, p) - 1
      && (forall t :: t in TasksOf(tasks - {id}, p) ==> t in TasksOf(tasks, p))
  {
    CountAfterRemove(tasks, id, (x: Task) => InProject(x, tasks[id].projectId));
  }

  predicate InProject(t: Task, projectId: Id) {
    t.projectId == projectId
  }

  function NewestTaskFirst(t: Task): int {
    -t.createdAt
  }

  /** A project's tasks, newest first. */
  ghost function TasksOf(tasks: map<Id, Task>, projectId: Id): (r: seq<Task>)
    ensures forall t :: t in r <==> t in tasks.Values && t.projectId == projectId
    ensures |r| == GetTaskCountOf(tasks, projectId)
    ensures forall i, j :: 0 <= i < j < |r| ==> r[i].createdAt >= r[j].createdAt
  {
    var r := Query(tasks, (t: Task) => InProject(t, projectId), NewestTaskFirst);
    forall i, j | 0 <= i < j < |r| ensures r[i].createdAt >= r[j].createdAt {
      assert NewestTaskFirst(r[i]) <= NewestTaskFirst(r[j]);
    }
    r
  }

  /** The exact number of a project's tasks. */
  function GetTaskCountOf(tasks: map<Id, Task>, projectId: Id): nat {
    CountWhere(tasks, (t: Task) => InProject(t, projectId))
  }

  /** `getTasks(projectId)`: `[]` when the query fails. */
  ghost function GetTasks(db: Database, projectId: Id, readOk: bool): (r: seq<Task>)
    reads db
    ensures !readOk ==> r == []
    ensures readOk ==> r == TasksOf(db.tasks, projectId)
  {
    if readOk then TasksOf(db.tasks, projectId) else []
  }

  /** `getTaskCount(projectId)`: `0` when the query fails. */
  function GetTaskCount(db: Database, projectId: Id, readOk: bool): (n: nat)
    reads db
    ensures n == |GetTasks(db, projectId, readOk)|
  {
    if readOk then GetTaskCountOf(db.tasks, projectId) else 0
  }

  /** `getTaskById(id)`: `null` when no row matches or the query fails. */
  function GetTaskById(db: Database, id: Id, readOk: bool): (r: Option<Task>)
    reads db
    ensures r.Some? <==> readOk && id in db.tasks
    ensures r.Some? ==> r.value in db.tasks.Values && r.value == db.tasks[id]
  {
    if readOk && id in db.tasks then Some(db.tasks[id]) else None
  }
}
