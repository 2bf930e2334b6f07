/** The activity recorder (`createActivity`), the five helpers that fix
    each logged event's type and metadata, and the recent-activity query. */
module ActivityActions {
  import opened Wrappers
  import opened Tables
  import opened Entities

  const NotAuthenticated := "Not authenticated"
  const LogFailed := "Failed to log activity"

  /** `getRecentActivity(limit = 10)`. */
  const DefaultFeedLimit: nat := 10

  /** `x || null` on an optional id: absent and empty both become null. */
  function NullIfEmpty(x: Option<string>): (r: Option<string>)
    ensures r.None? <==> x.None? || x.value == ""
    ensures r.Some? ==> r == x
  {
    if x.Some? && x.value != "" then x else None
  }

  /** The row `createActivity` inserts for `data` on behalf of `owner`;
      the metadata object is kept as given (an object is always truthy). */
  function ActivityRow(id: Id, owner: Id, data: ActivityInsert, now: Time): Activity {
    Activity(id, owner, NullIfEmpty(data.projectId), NullIfEmpty(data.taskId), data.kind, data.metadata, now)
  }

  /** Rows already in the log are kept as they were, and at most one is added. */
  ghost predicate AppendOnly(before: map<Id, Activity>, after: map<Id, Activity>) {
    && (forall k :: k in before ==> k in after && after[k] == before[k])
    && |after.Keys - before.Keys| <= 1
  }

  /** `createActivity(data)`: appends one row, or reports why not. It
      never throws: every failure is an error value its callers ignore. */
  method CreateActivity(db: Database, user: Option<Id>, data: ActivityInsert,
                        insertOk: bool, newId: Id, now: Time)
    returns (res: Outcome)
    modifies db`activity
    ensures user.None? ==> res == Refused(Message(NotAuthenticated)) && db.activity == old(db.activity)
    ensures user.Some? && !(insertOk && newId !in old(db.activity)) ==>
      res == Refused(Message(LogFailed)) && db.activity == old(db.activity)
    ensures user.Some? && insertOk && newId !in old(db.activity) ==>
      res == Completed && db.activity == old(db.activity)[newId := ActivityRow(newId, user.value, data, now)]
    ensures AppendOnly(old(db.activity), db.activity)
  {
    if user.None? {
      return Refused(Message(NotAuthenticated));
    }
    if !insertOk || newId in db.activity {
      return Refused(Message(LogFailed));
    }
    db.activity := db.activity[newId := ActivityRow(newId, user.value, data, now)];
    assert db.activity.Keys - old(db.activity).Keys == {newId};
    res := Completed;
  }

  /** `logTaskCreated`: both references, and the title under `task_title`. */
  function TaskCreatedEntry(taskId: Id, projectId: Id, taskTitle: string): (e: ActivityInsert)
    ensures e.kind == TaskCreated && e.projectId == Some(projectId) && e.taskId == Some(taskId)
    ensures e.metadata.Some? && e.metadata.value.Keys == {"task_title"} && e.metadata.value["task_title"] == taskTitle
  {
    ActivityInsert(TaskCreated, Some(projectId), Some(taskId), Some(map["task_title" := taskTitle]))
  }

  /** `logTaskCompleted`: both references, and the title under `task_title`. */
  function TaskCompletedEntry(taskId: Id, projectId: Id, taskTitle: string): (e: ActivityInsert)
    ensures e.kind == TaskCompleted && e.projectId == Some(projectId) && e.taskId == Some(taskId)
    ensures e.metadata.Some? && e.metadata.value.Keys == {"task_title"} && e.metadata.value["task_title"] == taskTitle
  {
    ActivityInsert(TaskCompleted, Some(projectId), Some(taskId), Some(map["task_title" := taskTitle]))
  }

  /** `logCommentAdded`: both references, and the title under `task_title`. */
  function CommentAddedEntry(taskId: Id, projectId: Id, taskTitle: string): (e: ActivityInsert)
    ensures e.kind == CommentAdded && e.projectId == Some(projectId) && e.taskId == Some(taskId)
    ensures e.metadata.Some? && e.metadata.value.Keys == {"task_title"} && e.metadata.value["task_title"] == taskTitle
  {
    ActivityInsert(CommentAdded, Some(projectId), Some(taskId), Some(map["task_title" := taskTitle]))
  }

  /** `logAttachmentUploaded`: both references, the title and the file name. */
  function AttachmentUploadedEntry(taskId: Id, projectId: Id, taskTitle: string, filename: string): (e: ActivityInsert)
    ensures e.kind == AttachmentUploaded && e.projectId == Some(projectId) && e.taskId == Some(taskId)
    ensures e.metadata.Some? && e.metadata.value.Keys == {"task_title", "filename"}
    ensures e.metadata.value["task_title"] == taskTitle && e.metadata.value["filename"] == filename
  {
    ActivityInsert(AttachmentUploaded, Some(projectId), Some(taskId),
                   Some(map["task_title" := taskTitle, "filename" := filename]))
  }

  /** `logProjectCreated`: no task reference, and the name under `project_name`. */
  function ProjectCreatedEntry(projectId: Id, projectName: string): (e: ActivityInsert)
    ensures e.kind == ProjectCreated && e.projectId == Some(projectId) && e.taskId == None
    ensures e.metadata.Some? && e.metadata.value.Keys == {"project_name"} && e.metadata.value["project_name"] == projectName
  {
    ActivityInsert(ProjectCreated, Some(projectId), None, Some(map["project_name" := projectName]))
  }

  /** What each helper makes `createActivity` store: its own type, both
      references for task events and only the project for a new project,
      and metadata with exactly the keys the feed's templates read. */
  lemma LoggedRowShapes(id: Id, owner: Id, taskId: Id, projectId: Id, title: string,
                        filename: string, name: string, now: Time)
    requires taskId != "" && projectId != ""
    ensures var r := ActivityRow(id, owner, TaskCreatedEntry(taskId, projectId, title), now);
      r.kind == TaskCreated && r.projectId == Some(projectId) && r.taskId == Some(taskId)
      && r.metadata.Some? && r.metadata.value.Keys == {"task_title"}
    ensures var r := ActivityRow(id, owner, TaskCompletedEntry(taskId, projectId, title), now);
      r.kind == TaskCompleted && r.projectId == Some(projectId) && r.taskId == Some(taskId)
      && r.metadata.Some? && r.metadata.value.Keys == {"task_title"}
    ensures var r := ActivityRow(id, owner, CommentAddedEntry(taskId, projectId, title), now);
      r.kind == CommentAdded && r.projectId == Some(projectId) && r.taskId == Some(taskId)
      && r.metadata.Some? && r.metadata.value.Keys == {"task_title"}
    ensures var r := ActivityRow(id, owner, AttachmentUploadedEntry(taskId, projectId, title, filename), now);
      r.kind == AttachmentUploaded && r.projectId == Some(projectId) && r.taskId == Some(taskId)
      && r.metadata.Some? && r.metadata.value.Keys == {"task_title", "filename"}
    ensures var r := ActivityRow(id, owner, ProjectCreatedEntry(projectId, name), now);
      r.kind == ProjectCreated && r.projectId == Some(projectId) && r.taskId == None
      && r.metadata.Some? && r.metadata.value.Keys == {"project_name"}
  {
  }

  /** A feed entry: the row joined with its project's name and task's title
      (`project:projects(id, name), task:tasks(id, title)`); a reference to
      a missing row joins to nothing. */
  datatype FeedItem = FeedItem(row: Activity, projectName: Option<string>, taskTitle: Option<string>)

  function Joined(projects: map<Id, Project>, tasks: map<Id, Task>, a: Activity): (item: FeedItem)
    ensures item.row == a
    ensures item.projectName.Some? <==> a.projectId.Some? && a.projectId.value in projects
    ensures item.projectName.Some? ==> item.projectName.value == projects[a.projectId.value].name
    ensures item.taskTitle.Some? <==> a.taskId.Some? && a.taskId.value in tasks
    ensures item.taskTitle.Some? ==> item.taskTitle.value == tasks[a.taskId.value].title
  {
    FeedItem(a,
      if a.projectId.Some? && a.projectId.value in projects then Some(projects[a.projectId.value].name) else None,
      if a.taskId.Some? && a.taskId.value in tasks then Some(tasks[a.taskId.value].title) else None)
  }

  predicate AnyActivity(a: Activity) {
    true
  }

  function NewestFirst(a: Activity): int { -a.createdAt }

  /** No row is newer than a row before it. */
  predicate NewestFirstOrder(rows: seq<Activity>) {
    forall i, j :: 0 <= i < j < |rows| ==> rows[i].createdAt >= rows[j].createdAt
  }

  /** Every row of the log, newest first. */
  ghost function ByNewest(log: map<Id, Activity>): (all: seq<Activity>)
    ensures |all| == |log|
    ensures forall a :: a in all <==> a in log.Values
    ensures NewestFirstOrder(all)
  {
    var all := Query(log, AnyActivity, NewestFirst);
    forall i, j | 0 <= i < j < |all| ensures all[i].createdAt >= all[j].createdAt {
      assert NewestFirst(all[i]) <= NewestFirst(all[j]);
    }
    all
  }

  /** The `limit` newest rows of the log, newest first
      (`.order("created_at", { ascending: false }).limit(limit)`): as many
      as the log holds, up to the limit, taken from the front of the
      newest-first listing. */
  ghost function Newest(log: map<Id, Activity>, limit: nat): (rows: seq<Activity>)
    ensures |rows| == if |log| < limit then |log| else limit
    ensures rows == ByNewest(log)[..|rows|]
    ensures forall a :: a in rows ==> a in log.Values
    ensures NewestFirstOrder(rows)
  {
    var all := ByNewest(log);
    var n := if |all| < limit then |all| else limit;
    PrefixOfNewestFirst(all, log.Values, n);
    all[..n]
  }

  /** A prefix of a newest-first listing of `rows` is itself newest first
      and drawn from `rows`. */
  lemma PrefixOfNewestFirst(all: seq<Activity>, rows: set<Activity>, n: nat)
    requires n <= |all|
    requires forall a :: a in all ==> a in rows
    requires NewestFirstOrder(all)
    ensures forall a :: a in all[..n] ==> a in rows
    ensures NewestFirstOrder(all[..n])
  {
    forall a | a in all[..n] ensures a in rows {
      var k :| 0 <= k < n && all[..n][k] == a;
      assert all[k] == a;
    }
  }

  /** No row left out of the feed is newer than a row in it. */
  lemma NewestOmitsOnlyOlder(log: map<Id, Activity>, limit: nat, a: Activity, r: Activity)
    requires a in log.Values && a !in Newest(log, limit) && r in Newest(log, limit)
    ensures a.createdAt <= r.createdAt
  {
    var all := ByNewest(log);
    var n := if |all| < limit then |all| else limit;
    assert Newest(log, limit) == all[..n];
    assert a in all;
    OmittedFromPrefix(all, n, a, r);
  }

  /** In a newest-first listing, a row outside a prefix is no newer than
      any row inside it. */
  lemma OmittedFromPrefix(all: seq<Activity>, n: nat, a: Activity, r: Activity)
    requires n <= |all| && a in all && a !in all[..n] && r in all[..n]
    requires NewestFirstOrder(all)
    ensures a.createdAt <= r.createdAt
  {
    var j :| 0 <= j < |all| && all[j] == a;
    var i :| 0 <= i < n && all[..n][i] == r;
    assert all[i] == r;
    assert forall k :: 0 <= k < n ==> all[k] in all[..n];
  }

  /** `getRecentActivity(limit)`: the newest rows joined with their
      project and task; `[]` when the query fails. */
  ghost function GetRecentActivity(db: Database, limit: nat, readOk: bool): (feed: seq<FeedItem>)
    reads db
    ensures !readOk ==> feed == []
    ensures readOk ==> |feed| == |Newest(db.activity, limit)|
    ensures forall i :: 0 <= i < |feed| ==> feed[i] == Joined(db.projects, db.tasks, Newest(db.activity, limit)[i])
  {
    if !readOk then []
    else
      var rows := Newest(db.activity, limit);
      var projects, tasks := db.projects, db.tasks;
      seq(|rows|, i requires 0 <= i < |rows| => Joined(projects, tasks, rows[i]))
  }
}
