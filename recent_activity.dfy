/** The dashboard's "Recent Activity" card: each activity type maps to an
    icon and a message template, and each row may carry its project's
    name and a link to its task. */
module RecentActivity {
  import opened Wrappers
  import opened Tables
  import opened Entities
  import opened ActivityActions

  /** The icon badge of a row (icon and colour). */
  datatype Icon = CheckGreen | MessageBlue | UploadPurple | FolderIndigo | ActivitySky | ActivityGray

  /** `getActivityIcon`: `task_updated` falls to the default grey icon. */
  function ActivityIcon(kind: ActivityType): (icon: Icon)
    ensures icon == ActivityGray <==> kind == TaskUpdated
  {
    match kind
    case TaskCompleted => CheckGreen
    case CommentAdded => MessageBlue
    case AttachmentUploaded => UploadPurple
    case ProjectCreated => FolderIndigo
    case TaskCreated => ActivitySky
    case TaskUpdated => ActivityGray
  }

  /** `activity.metadata?.<key>` as rendered: a missing value renders as nothing. */
  function MetadataText(metadata: Option<Metadata>, key: string): string {
    if metadata.Some? && key in metadata.value then metadata.value[key] else ""
  }

  /** A task event's sentence ends with the task's title. */
  predicate EndsWithTitle(message: string, metadata: Option<Metadata>) {
    var title := MetadataText(metadata, "task_title");
    |title| <= |message| && message[|message| - |title|..] == title
  }

  /** `getActivityMessage`, as the text the template renders: every logged
      type reads as a "You ..." sentence, a task event ends with the task's
      title, and only the unlogged type gets the fallback text. */
  function ActivityMessage(kind: ActivityType, metadata: Option<Metadata>): (message: string)
    ensures message == "Activity recorded" <==> kind == TaskUpdated
    ensures kind != TaskUpdated ==> |message| >= 4 && message[..4] == "You "
    ensures kind.TaskCreated? || kind.TaskCompleted? || kind.CommentAdded? || kind.AttachmentUploaded? ==>
      EndsWithTitle(message, metadata)
  {
    var title := MetadataText(metadata, "task_title");
    var message := match kind
      case TaskCreated => "You created " + title
      case TaskCompleted => "You completed " + title
      case CommentAdded => "You commented on " + title
      case AttachmentUploaded => "You uploaded " + MetadataText(metadata, "filename") + " to " + title
      case ProjectCreated => "You created project " + MetadataText(metadata, "project_name")
      case TaskUpdated => "Activity recorded";
    assert kind != TaskUpdated ==> message[0] == 'Y';
    message
  }

  const EmptyFeedText := "No recent activity. Start by creating a project or task!"

  function TaskHref(taskId: Id): string {
    "/app/tasks/" + taskId
  }

  /** One rendered row: the project name is shown only when it is truthy,
      and "View task" only when the row's task id is. */
  datatype RowView = RowView(icon: Icon, message: string, projectLabel: Option<string>, taskLink: Option<string>)

  datatype FeedView = Placeholder(text: string) | Entries(rows: seq<RowView>)

  function RowViewOf(item: FeedItem): (v: RowView)
    ensures v.projectLabel.Some? <==> item.projectName.Some? && item.projectName.value != ""
    ensures v.projectLabel.Some? ==> v.projectLabel == item.projectName
    ensures v.taskLink.Some? <==> item.row.taskId.Some? && item.row.taskId.value != ""
    ensures v.taskLink.Some? ==> v.taskLink.value == TaskHref(item.row.taskId.value)
  {
    var a := item.row;
    RowView(
      ActivityIcon(a.kind),
      ActivityMessage(a.kind, a.metadata),
      if item.projectName.Some? && item.projectName.value != "" then item.projectName else None,
      if a.taskId.Some? && a.taskId.value != "" then Some(TaskHref(a.taskId.value)) else None)
  }

  /** The card body: a placeholder for an empty feed, otherwise one row
      per item in feed order. */
  function RenderFeed(items: seq<FeedItem>): (v: FeedView)
    ensures v.Placeholder? <==> items == []
    ensures v.Placeholder? ==> v.text == EmptyFeedText
    ensures v.Entries? ==> |v.rows| == |items| && forall i :: 0 <= i < |items| ==> v.rows[i] == RowViewOf(items[i])
  {
    if items == [] then Placeholder(EmptyFeedText)
    else Entries(seq(|items|, i requires 0 <= i < |items| => RowViewOf(items[i])))
  }

  /** `RecentActivity()`: the ten newest rows, rendered. */
  ghost function RecentActivityCard(db: Database, readOk: bool): (v: FeedView)
    reads db
    ensures v.Placeholder? <==> !readOk || db.activity == map[]
    ensures v.Entries? ==> |v.rows| <= DefaultFeedLimit
  {
    var feed := GetRecentActivity(db, DefaultFeedLimit, readOk);
    assert readOk && db.activity != map[] ==> feed != [] by {
      if readOk && db.activity != map[] {
        var k :| k in db.activity;
        assert |db.activity| > 0;
      }
    }
    RenderFeed(feed)
  }

  /** Each event the helpers log reads back, through `createActivity` and
      the feed, as the sentence meant for it, under its own icon. */
  lemma LoggedEventsRender(id: Id, owner: Id, taskId: Id, projectId: Id, title: string,
                           filename: string, name: string, now: Time)
    ensures var r := ActivityRow(id, owner, TaskCreatedEntry(taskId, projectId, title), now);
      ActivityMessage(r.kind, r.metadata) == "You created " + title && ActivityIcon(r.kind) == ActivitySky
    ensures var r := ActivityRow(id, owner, TaskCompletedEntry(taskId, projectId, title), now);
      ActivityMessage(r.kind, r.metadata) == "You completed " + title && ActivityIcon(r.kind) == CheckGreen
    ensures var r := ActivityRow(id, owner, CommentAddedEntry(taskId, projectId, title), now);
      ActivityMessage(r.kind, r.metadata) == "You commented on " + title && ActivityIcon(r.kind) == MessageBlue
    ensures var r := ActivityRow(id, owner, AttachmentUploadedEntry(taskId, projectId, title, filename), now);
      ActivityMessage(r.kind, r.metadata) == "You uploaded " + filename + " to " + title
      && ActivityIcon(r.kind) == UploadPurple
    ensures var r := ActivityRow(id, owner, ProjectCreatedEntry(projectId, name), now);
      ActivityMessage(r.kind, r.metadata) == "You created project " + name && ActivityIcon(r.kind) == FolderIndigo
  {
  }

  /** Only the type no code path logs falls to the default icon and
      message; the five logged types have five different icons. */
  lemma DefaultOnlyForUnloggedType(k1: ActivityType, k2: ActivityType, metadata: Option<Metadata>)
    ensures ActivityIcon(k1) == ActivityGray <==> k1 == TaskUpdated
    ensures k1 == TaskUpdated ==> ActivityMessage(k1, metadata) == "Activity recorded"
    ensures k1 != k2 ==> ActivityIcon(k1) != ActivityIcon(k2)
  {
  }

  /** The recorder's `|| null` and the feed's `taskId &&` agree: a logged
      row links to its task exactly when the caller gave a non-empty task
      id, and shows its project exactly when that project still exists
      under a non-empty name. */
  lemma RecordedRowLinks(projects: map<Id, Project>, tasks: map<Id, Task>, id: Id, owner: Id,
                         data: ActivityInsert, now: Time)
    ensures var v := RowViewOf(Joined(projects, tasks, ActivityRow(id, owner, data, now)));
      && (v.taskLink.Some? <==> data.taskId.Some? && data.taskId.value != "")
      && (v.projectLabel.Some? <==> data.projectId.Some? && data.projectId.value != ""
                                    && data.projectId.value in projects
                                    && projects[data.projectId.value].name != "")
  {
  }
}
