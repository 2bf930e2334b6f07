/** The rows of the five tables and the remote store that holds them. */
module Entities {
  import opened Wrappers
  import opened Tables

  /** `TaskStatus`: 'todo' | 'in_progress' | 'done'. */
  datatype Status = Todo | InProgress | Done

  /** `TaskPriority`: 1 | 2 | 3 (low, medium, high). */
  type Priority = p: int | 1 <= p <= 3 witness 2

  /** The enum's wire names, as a schema compares them. */
  function StatusName(s: Status): string {
    match s
    case Todo => "todo"
    case InProgress => "in_progress"
    case Done => "done"
  }

  /** `z.enum(["todo", "in_progress", "done"])` applied to a string. */
  function ParseStatus(name: string): (r: Option<Status>)
    ensures r.Some? ==> StatusName(r.value) == name
    ensures forall s :: StatusName(s) == name ==> r == Some(s)
  {
    if name == "todo" then Some(Todo)
    else if name == "in_progress" then Some(InProgress)
    else if name == "done" then Some(Done)
    else None
  }

  /** Timestamps (`created_at`, `updated_at`) as milliseconds. */
  type Time = int

  datatype Project = Project(id: Id, ownerId: Id, name: string, createdAt: Time)

  datatype Task = Task(
    id: Id, projectId: Id, ownerId: Id, title: string,
    description: Option<string>, status: Status, priority: Priority,
    dueDate: Option<string>, createdAt: Time, updatedAt: Time)

  datatype Comment = Comment(id: Id, taskId: Id, ownerId: Id, body: string, createdAt: Time)

  datatype Attachment = Attachment(
    id: Id, taskId: Id, ownerId: Id, path: string, filename: string,
    fileSize: nat, mimeType: string, createdAt: Time)

  /** `ActivityType`. `TaskUpdated` is declared but no code path logs it. */
  datatype ActivityType =
    TaskCreated | TaskUpdated | TaskCompleted | CommentAdded | AttachmentUploaded | ProjectCreated

  /** The free-form JSON metadata of an activity row. */
  type Metadata = map<string, string>

  /** `ActivityInsert`: what a caller hands to `createActivity`. */
  datatype ActivityInsert = ActivityInsert(
    kind: ActivityType, projectId: Option<Id>, taskId: Option<Id>, metadata: Option<Metadata>)

  /** `Activity`: one row of the append-only activity table. */
  datatype Activity = Activity(
    id: Id, ownerId: Id, projectId: Option<Id>, taskId: Option<Id>,
    kind: ActivityType, metadata: Option<Metadata>, createdAt: Time)

  /** The hosted backend as the actions see it: one map per table and the
      set of object keys in the "attachments" storage bucket. Row-level
      ownership policies and foreign keys are enforced remotely and are
      not modelled; an insert the remote rejects for any reason is an
      `insertOk == false` input. */
  class Database {
    var projects: map<Id, Project>
    var tasks: map<Id, Task>
    var comments: map<Id, Comment>
    var attachments: map<Id, Attachment>
    var activity: map<Id, Activity>
    var storage: set<string>

    constructor ()
      ensures projects == map[] && tasks == map[] && comments == map[]
      ensures attachments == map[] && activity == map[] && storage == {}
    {
      projects, tasks, comments := map[], map[], map[];
      attachments, activity, storage := map[], map[], {};
    }
  }
}
