# mini-jira — a Dafny model of the task tracker's core

mini-jira is a small task tracker. A signed-in user owns **projects**, and
each project holds **tasks**. A task has a title, an optional description, a
status (`todo`, `in_progress`, `done`), a priority (1 Low, 2 Medium, 3 High)
and an optional due date. Users discuss a task in **comments** and attach
files to it (**attachments**, kept in an object store). Some actions append
an **activity** entry, and the dashboard shows the ten newest entries.

This project models the following:

- **Server actions** on the hosted database: create, read, update and delete
  for projects, tasks, comments and attachments, plus the activity log. Each
  is a method on a `Database` object. The object has one map per table and a
  set of stored object keys.
- **What the UI computes** on top of them:
  - the task-list filter tabs and their counts;
  - the navbar initials and display name, and the dashboard greeting;
  - the activity feed's messages and links;
  - the optimistic status and priority badges;
  - the comment composer's submit rule;
  - the attachment uploader's selection state.

Everything remote is an input. These are:

- the signed-in user (`Option<Id>`);
- whether each query or write succeeded (a `bool`);
- the id the database generates;
- the clock reading.

An insert whose id is already in use fails, just like any other rejected
insert.

Modules, one per core source file:

| module | models |
|---|---|
| `Wrappers` | `Option`, `Result`, `Error` (a message, or a field zod rejects), `Outcome`, and `Reply` (what a client component receives back) |
| `Text` | JavaScript `trim`, `split` on a character class, `join`, `toUpperCase`, `lastIndexOf`, and number-to-text |
| `Tables` | reading a table: filter, order by a key, exact count |
| `Entities` | the rows and the `Database` class |
| `Schema` | a zod `string().min().max().trim()` field |
| `ActivityActions`, `TaskActions`, `ProjectActions`, `CommentActions`, `AttachmentActions` | the server actions |
| `RecentActivity`, `TaskList`, `Navbar`, `Dashboard` | what those components render |
| `OptimisticBadge`, `StatusBadge`, `PriorityBadge`, `CommentComposer`, `AttachmentUploader` | client components with state; those that update their state in place are classes |

Three behaviours of the code that a reader might not expect, modelled as the
code has them:

- `createTask`, `updateTaskStatus` and `createProject` write no activity
  entries. Only `createComment` and `uploadAttachment` call a `log*` helper.
  So the `task_created`, `task_completed` and `project_created` messages exist
  in the feed but are never produced. `LoggedRowShapes` and
  `LoggedEventsRender` state what those helpers would store and render.
- The messages say a title, name or comment "must be less than" 500, 100 or
  5000 characters, but the limit is inclusive: exactly 500 (100, 5000) is
  accepted. `PaddingCountsTowardLimit` and `LimitBoundary` state this.
- zod checks the length of the untrimmed text and then stores the trimmed
  text. So a title, name or comment made only of spaces is accepted and
  stored as `""` (`BlankTextAccepted`). The composer's button blocks such a
  comment, but the server action does not (`BlankBodyBlockedOnlyByClient`).

## Model

| member | source | states |
|---|---|---|
| `Entities.ParseStatus` | src/types/database.ts:24 | the status enum: a name parses to the one status whose name it is, and only such names parse |
| `Entities.Database.constructor` | src/types/database.ts:6-38 | a fresh database has empty tables and an empty object store |
| `Schema.BoundedText` | src/app/actions/tasks.ts:10-13 | accepted exactly when the raw length is between 1 and the maximum; an empty string gets the "required" message and an over-long one the "too long" message; the stored value is the trimmed text |
| `Schema.BlankTextAccepted` | src/app/actions/comments.ts:11-15 | text made only of whitespace, within the limit, is accepted and stored as the empty string |
| `Schema.PaddingCountsTowardLimit` | src/app/actions/projects.ts:10-14 | a trailing space that trim would remove still counts toward the maximum and can push the text over it |
| `ActivityActions.NullIfEmpty` | src/app/actions/activity.ts:28-29 | `x \|\| null`: absent exactly when the value is missing or empty, and otherwise unchanged |
| `ActivityActions.CreateActivity` | src/app/actions/activity.ts:10-45 | no user means "Not authenticated" and no row; a failed insert means "Failed to log activity" and no row; otherwise exactly one row is added, with the caller's fields and the user as owner; the log only grows |
| `ActivityActions.TaskCreatedEntry` | src/app/actions/activity.ts:80-87 | `logTaskCreated`: type `task_created`, both references, and metadata holding only the title under `task_title` |
| `ActivityActions.TaskCompletedEntry` | src/app/actions/activity.ts:92-99 | `logTaskCompleted`: type `task_completed`, both references, and metadata holding only the title under `task_title` |
| `ActivityActions.CommentAddedEntry` | src/app/actions/activity.ts:104-111 | `logCommentAdded`: type `comment_added`, both references, and metadata holding only the title under `task_title` |
| `ActivityActions.AttachmentUploadedEntry` | src/app/actions/activity.ts:116-128 | `logAttachmentUploaded`: type `attachment_uploaded`, both references, and metadata holding exactly the title and the file name |
| `ActivityActions.ProjectCreatedEntry` | src/app/actions/activity.ts:133-139 | `logProjectCreated`: type `project_created`, the project reference and no task, and metadata holding only the name under `project_name` |
| `ActivityActions.LoggedRowShapes` | src/app/actions/activity.ts:80-139 | each `log*` helper stores its own type, task and project references (the project only, for a new project), and metadata with exactly the keys the feed reads |
| `ActivityActions.Joined` | src/app/actions/activity.ts:57-60 | the feed's join: a project name or task title is present exactly when the row references an existing project or task, and it is that row's name or title |
| `ActivityActions.ByNewest` | src/app/actions/activity.ts:62 | every logged row exactly once, newest first |
| `ActivityActions.Newest` | src/app/actions/activity.ts:55-63 | exactly as many rows as the log holds, up to `limit`, and they are the front of the newest-first listing of the whole log |
| `ActivityActions.NewestOmitsOnlyOlder` | src/app/actions/activity.ts:62-63 | a logged row left out of the limited feed is no newer than any row shown |
| `ActivityActions.GetRecentActivity` | src/app/actions/activity.ts:51-75 | empty when the query fails; otherwise the newest `limit` rows, each joined with its project and task |
| `RecentActivity.ActivityIcon` | src/components/recent-activity.tsx:8-47 | `getActivityIcon`: the grey default icon is given exactly to `task_updated` |
| `RecentActivity.ActivityMessage` | src/components/recent-activity.tsx:49-88 | `getActivityMessage`: "Activity recorded" exactly for `task_updated`; every other type reads as a "You ..." sentence, and a task event's sentence ends with the task's title |
| `RecentActivity.RowViewOf` | src/components/recent-activity.tsx:108-132 | the project name is shown exactly when the joined name is non-empty; "View task" links to `/app/tasks/<id>` exactly when the row's task id is non-empty |
| `RecentActivity.RenderFeed` | src/components/recent-activity.tsx:101-142 | the placeholder text exactly when there are no rows; otherwise one rendered row per entry, in order |
| `RecentActivity.RecentActivityCard` | src/components/recent-activity.tsx:90-102 | the card shows the placeholder exactly when the read fails or the log is empty, and never more than ten rows |
| `RecentActivity.LoggedEventsRender` | src/components/recent-activity.tsx:8-88 | a row stored by each `log*` helper renders with its own icon, and as its message with the logged title, file name or project name |
| `RecentActivity.DefaultOnlyForUnloggedType` | src/components/recent-activity.tsx:8-88 | the grey default icon belongs only to `task_updated`, which shows "Activity recorded"; different types get different icons |
| `RecentActivity.RecordedRowLinks` | src/components/recent-activity.tsx:108-132 | for any stored row, "View task" appears exactly when the logged task id is non-empty, and the project label exactly when the logged project still exists and has a non-empty name |
| `TaskActions.ValidateTaskInput` | src/app/actions/tasks.ts:9-19 | accepted exactly when the title length is 1..500 and the status and priority are valid or missing; the first failing field decides the message; status defaults to todo and priority to 2; the title is trimmed |
| `TaskActions.NewTaskRow` | src/app/actions/tasks.ts:66-80 | the inserted row: the requested project, the user as owner, the validated fields; an empty description or due date is stored as null |
| `TaskActions.CreateTask` | src/app/actions/tasks.ts:39-97 | checks in the code's order (validation, then login, then insert), each failure with its own message and no write; on success exactly the new row is added under its id |
| `TaskActions.CreatedTaskCounted` | src/app/actions/tasks.ts:309-328 | a created task is listed under its project, and that project's count goes up by one |
| `TaskActions.UpdateTaskStatus` | src/app/actions/tasks.ts:155-184 | a failed write or a missing task is reported and changes nothing; otherwise only that task's status and update time change |
| `TaskActions.UpdateTaskPriority` | src/app/actions/tasks.ts:190-218 | the same for the priority |
| `TaskActions.ValidateTaskPatch` | src/app/actions/tasks.ts:22-33 | every field is optional, and each field present must pass its creation check; the first failing field decides the message; accepted fields are carried over (the title trimmed) and missing ones stay missing |
| `TaskActions.ApplyPatch` | src/app/actions/tasks.ts:240-244 | fields given in the patch replace the task's fields and all others are kept; id, project, owner and creation time never change; the update time is the clock reading |
| `TaskActions.UpdateTask` | src/app/actions/tasks.ts:224-268 | a patch that fails validation, a failed write or a missing task changes nothing; otherwise the task becomes the patched task |
| `TaskActions.EmptyPatchTouchesOnlyTimestamp` | src/app/actions/tasks.ts:236-244 | an empty patch validates and changes only the update time |
| `TaskActions.PatchIdempotent` | src/app/actions/tasks.ts:240-244 | applying the same patch twice gives the same task as applying it once |
| `TaskActions.StatusPatchMatchesStatusUpdate` | src/app/actions/tasks.ts:159-165 | a patch holding only a status does what `updateTaskStatus` does |
| `TaskActions.PriorityPatchMatchesPriorityUpdate` | src/app/actions/tasks.ts:194-200 | a patch holding only a priority does what `updateTaskPriority` does |
| `TaskActions.EmptyDescriptionCreateVersusUpdate` | src/app/actions/tasks.ts:72-77 | an empty description is stored as null on create but as `""` on update; a null due date in a patch clears it |
| `TaskActions.DeleteTask` | src/app/actions/tasks.ts:274-303 | a failed delete is reported and changes nothing; otherwise exactly that id is removed |
| `TaskActions.DeletedTaskUncounted` | src/app/actions/tasks.ts:285 | deleting a task lowers its project's count by one and adds no task to the list |
| `TaskActions.TasksOf` | src/app/actions/tasks.ts:107-111 | exactly the project's tasks, one per row, newest first |
| `TaskActions.GetTasks` | src/app/actions/tasks.ts:103-123 | `[]` when the query fails, otherwise the project's tasks newest first |
| `TaskActions.GetTaskCount` | src/app/actions/tasks.ts:309-328 | the count equals the length of the list `getTasks` returns, including 0 on failure |
| `TaskActions.GetTaskById` | src/app/actions/tasks.ts:129-149 | the task with that id when it exists and the read succeeds, otherwise nothing |
| `ProjectActions.ValidateProjectName` | src/app/actions/projects.ts:9-15 | accepted exactly when the name length is 1..100, with the required and too-long messages otherwise; the name is trimmed |
| `ProjectActions.CreateProject` | src/app/actions/projects.ts:21-64 | validation, then login, then insert, each failure with its own message and no write; on success exactly the new project is added |
| `ProjectActions.UpdateProject` | src/app/actions/projects.ts:123-154 | the name is validated as on creation; a failed write or a missing project changes nothing; otherwise only the name changes |
| `ProjectActions.DeleteProject` | src/app/actions/projects.ts:160-182 | a failed delete is reported and changes nothing; otherwise exactly that id is removed |
| `ProjectActions.ProjectsByNewest` | src/app/actions/projects.ts:74-77 | every project exactly once, newest first |
| `ProjectActions.GetProjects` | src/app/actions/projects.ts:70-89 | `[]` when the query fails, otherwise all projects newest first |
| `ProjectActions.GetProjectById` | src/app/actions/projects.ts:95-117 | the project with that id when it exists and the read succeeds, otherwise nothing |
| `ProjectActions.ListedAfterCreateAndDelete` | src/app/actions/projects.ts:39-51 | a created project appears in the list and adds one to its length; deleting it again restores the length |
| `ProjectActions.RenamedProjectListed` | src/app/actions/projects.ts:126-133 | after a rename the row stored under the id, which `getProjectById` reads back, has the trimmed name and the old id, owner and creation time; the list holds it and keeps its length |
| `CommentActions.ValidateCommentBody` | src/app/actions/comments.ts:10-16 | accepted exactly when the body length is 1..5000, with the empty and too-long messages otherwise; the body is trimmed |
| `CommentActions.CreateComment` | src/app/actions/comments.ts:22-90 | validation, then login, then the task lookup, then the insert, each failure with its own message and nothing written; on success the trimmed comment is added under the new id, and a `comment_added` entry is logged when the title read and the log insert succeed, and otherwise the log is unchanged |
| `CommentActions.DeleteComment` | src/app/actions/comments.ts:147-175 | a failed delete is reported and changes nothing; otherwise exactly that id is removed |
| `CommentActions.CommentsOf` | src/app/actions/comments.ts:100-104 | exactly the task's comments, oldest first |
| `CommentActions.GetComments` | src/app/actions/comments.ts:96-116 | `[]` when the query fails, otherwise the task's comments oldest first |
| `CommentActions.GetCommentCount` | src/app/actions/comments.ts:122-141 | the count equals the length of the list `getComments` returns |
| `CommentActions.CommentCountTracksWrites` | src/app/actions/comments.ts:51-64 | adding a comment raises its task's count by one and lists it; deleting it restores the count |
| `AttachmentActions.UploadRejection` | src/app/actions/attachments.ts:39-72 | the first failed check, in the code's order: login, task, file, type (one of the eight allowed), size (at most 50 MiB); none exactly when all pass |
| `AttachmentActions.SizeLimitInclusive` | src/app/actions/attachments.ts:23 | a file of exactly 52428800 bytes is accepted and one byte more is refused; the type check comes before the size check |
| `AttachmentActions.Extension` | src/app/actions/attachments.ts:76 | `split(".").pop()`: the text after the last dot, or the whole name when there is no dot; it holds no dot |
| `AttachmentActions.ExtensionAfterLastDot` | src/app/actions/attachments.ts:76 | for a name `stem.ext` whose `ext` is non-empty and has no dot, the extension is exactly `ext` |
| `AttachmentActions.StripExtension` | src/app/actions/attachments.ts:79 | removes a final dot with at least one non-dot after it, and nothing else |
| `AttachmentActions.Sanitize` | src/app/actions/attachments.ts:77-79 | the sanitised stem is no longer than the name and holds only characters from `[a-zA-Z0-9.-]` and `_` |
| `AttachmentActions.SanitizeShape` | src/app/actions/attachments.ts:77-79 | the sanitised stem is a prefix of the name with every character outside `[a-zA-Z0-9.-]` replaced by `_` |
| `AttachmentActions.StorageKey` | src/app/actions/attachments.ts:75-83 | the storage path begins with the owner's id and a `/`, and ends with a dot and the extension |
| `AttachmentActions.KeysDifferByTimestamp` | src/app/actions/attachments.ts:80-83 | for one owner, task and file name, two upload times give two different storage keys |
| `AttachmentActions.NoDotNameKey` | src/app/actions/attachments.ts:76-80 | a name without a dot becomes `<name>_<time>.<name>`, with the extension unsanitised |
| `AttachmentActions.TrailingDotKey` | src/app/actions/attachments.ts:76-80 | a name ending in a dot gets an empty extension, so the key ends in `.` |
| `AttachmentActions.ExtensionNotSanitised` | src/app/actions/attachments.ts:76-80 | the extension is copied into the key without sanitising |
| `AttachmentActions.NewAttachmentRow` | src/app/actions/attachments.ts:99-108 | the inserted record: the task, the user as owner, the storage key, and the file's name, size and type |
| `AttachmentActions.StoreAndRecord` | src/app/actions/attachments.ts:86-134 | a failed upload writes nothing; a failed record insert removes the uploaded object when the cleanup succeeds and leaves it when the cleanup fails; on success the object and exactly one record are added, and an `attachment_uploaded` entry is logged when the title read and the log insert succeed, and otherwise the log is unchanged |
| `AttachmentActions.UploadAttachment` | src/app/actions/attachments.ts:29-139 | a rejected upload returns the rejection's message and changes nothing; once the checks pass, a failed upload is "Failed to upload file" and stores nothing, a failed insert is "Failed to save attachment record" and leaves the uploaded object only when its cleanup fails, and both succeeding is a success whose record holds the key built from the user, task, name and clock; a success logs `attachment_uploaded` with the task's project and title when the title read and the log insert succeed, and otherwise the log is unchanged; any failure leaves the records and the log unchanged |
| `AttachmentActions.DeleteAttachment` | src/app/actions/attachments.ts:221-265 | a missing record is "Attachment not found" and changes nothing; a storage failure is ignored; a failed database delete can leave a record whose object is gone |
| `AttachmentActions.AttachmentsOf` | src/app/actions/attachments.ts:149-153 | exactly the task's attachments, newest first |
| `AttachmentActions.GetAttachments` | src/app/actions/attachments.ts:145-165 | `[]` when the query fails, otherwise the task's attachments newest first |
| `AttachmentActions.GetAttachmentCount` | src/app/actions/attachments.ts:171-190 | the count equals the length of the list `getAttachments` returns |
| `AttachmentActions.AttachmentCountTracksWrites` | src/app/actions/attachments.ts:99-110 | adding a record raises its task's count by one and lists it; deleting it restores the count |
| `TaskList.WithStatus` | src/components/tasks/task-list.tsx:29-34 | exactly the tasks with that status, in their original order |
| `TaskList.TaskCounts` | src/components/tasks/task-list.tsx:19-26 | the "all" count is the number of tasks |
| `TaskList.FilteredTasks` | src/components/tasks/task-list.tsx:29-34 | "all" keeps every task; a status tab keeps exactly the tasks with that status |
| `TaskList.CountsPartition` | src/components/tasks/task-list.tsx:19-26 | the three status counts add up to the total |
| `TaskList.FilteredLengthMatchesCount` | src/components/tasks/task-list.tsx:19-34 | the number of cards under a tab equals the count shown on the tab |
| `TaskList.FilterKeepsOrder` | src/components/tasks/task-list.tsx:32-33 | filtering keeps the tasks in their original order |
| `TaskList.FilterIdempotent` | src/components/tasks/task-list.tsx:29-34 | filtering an already filtered list changes nothing |
| `TaskList.ListViewOf` | src/components/tasks/task-list.tsx:36-80 | "No tasks yet" exactly when there are no tasks; cards for the filtered tasks when there are any; "No <status> tasks", with the tab's own heading, only for a status tab whose count is 0 |
| `Navbar.Username` | src/components/navbar.tsx:18 | `email.split("@")[0]`: the longest prefix of the email without `@` |
| `Navbar.Initials` | src/components/navbar.tsx:16-28 | at most two characters |
| `Navbar.InitialsCharacterised` | src/components/navbar.tsx:16-28 | the upper-cased first letters of the first two name parts, or the first two letters of the user name when it has only one part |
| `Navbar.DisplayName` | src/components/navbar.tsx:30-35 | `getDisplayName`: the user name with every `.`, `_` and `-` replaced by a space, character for character, so it is as long as the user name and keeps its casing |
| `Navbar.DisplayNameLabel` | src/components/navbar.tsx:42-43 | "User" for a missing email, otherwise the display name |
| `Navbar.InitialsLabel` | src/components/navbar.tsx:42-44 | "U" for a missing email, otherwise the initials |
| `Dashboard.GreetingName` | src/app/app/page.tsx:16 | "there" for a missing or empty email, otherwise the first name |
| `Dashboard.FirstName` | src/app/app/page.tsx:5-10 | `getFirstName`: the first name is a prefix of the email holding none of `@ . _ -`, and it ends at one of them or at the end of the email |
| `Dashboard.FirstNameStartsDisplayName` | src/app/app/page.tsx:5-10 | the greeting's first name begins the navbar's display name |
| `OptimisticBadge.Mount` | src/components/tasks/editable-status-badge.tsx:49-50 | a mounted badge shows its prop and is not updating |
| `OptimisticBadge.Begin` | src/components/tasks/editable-status-badge.tsx:55-60 | choosing the prop's value does nothing; another choice is shown at once and marks the badge busy |
| `OptimisticBadge.Finish` | src/components/tasks/editable-status-badge.tsx:62-84 | a reply that reports no error keeps the choice; an error or an exception reverts to the prop; the badge is no longer busy either way |
| `OptimisticBadge.Handle` | src/components/tasks/editable-status-badge.tsx:54-86 | a whole change: afterwards the badge shows the choice when the server accepted it, and the prop otherwise |
| `OptimisticBadge.Refresh` | src/components/tasks/editable-status-badge.tsx:43-50 | a new prop replaces the compared value but not the shown one |
| `OptimisticBadge.StalePropIgnoresReturn` | src/components/tasks/editable-status-badge.tsx:55 | after a successful change, choosing the original value again is ignored, because the handler compares with the stale prop |
| `OptimisticBadge.RevertGoesToProp` | src/components/tasks/editable-status-badge.tsx:66-80 | a failed second change reverts to the prop, not to the value the first change stored |
| `OptimisticBadge.RefreshRealigns` | src/components/tasks/editable-status-badge.tsx:43-86 | once the prop catches up with the stored value, a failed change reverts to the stored value |
| `OptimisticBadge.HandleAllSettles` | src/components/tasks/editable-status-badge.tsx:54-86 | after any sequence of completed changes the badge is not busy, its prop is unchanged, and it shows the prop, what it showed before, or one of the choices |
| `OptimisticBadge.LastEffective` | src/components/tasks/editable-status-badge.tsx:54-86 | reading a run of changes from the end: the value shown is the prop, the value shown before, or one of the choices |
| `OptimisticBadge.HandleAllSnoc` | src/components/tasks/editable-status-badge.tsx:54-86 | handling one more change after a run is handling it last |
| `OptimisticBadge.HandleAllShowsLastEffective` | src/components/tasks/editable-status-badge.tsx:54-86 | after any sequence of completed changes the badge shows exactly this: the choice of the last change that differs from the prop if that change succeeded, the prop if it failed, and the earlier shown value if every choice equalled the prop |
| `StatusBadge.StatusOptionsComplete` | src/components/tasks/editable-status-badge.tsx:23-41 | the menu lists each of the three statuses exactly once, the labels are distinct, and every status name parses back |
| `StatusBadge.EditableStatusBadge.constructor` | src/components/tasks/editable-status-badge.tsx:49-50 | the component's state starts as a mounted badge |
| `StatusBadge.EditableStatusBadge.HandleStatusChange` | src/components/tasks/editable-status-badge.tsx:54-86 | the new state is `Handle` of the old state, the choice and the server's reply |
| `StatusBadge.EditableStatusBadge.ReceiveProps` | src/components/tasks/editable-status-badge.tsx:43-50 | a re-render with a new prop is `Refresh` |
| `PriorityBadge.PriorityOptionsComplete` | src/components/tasks/editable-priority-badge.tsx:22-40 | the menu lists priorities 1, 2 and 3 exactly once, with distinct labels |
| `PriorityBadge.EditablePriorityBadge.constructor` | src/components/tasks/editable-priority-badge.tsx:48-49 | the component's state starts as a mounted badge |
| `PriorityBadge.EditablePriorityBadge.HandlePriorityChange` | src/components/tasks/editable-priority-badge.tsx:54-86 | the new state is `Handle` of the old state, the choice and the server's reply |
| `PriorityBadge.EditablePriorityBadge.ReceiveProps` | src/components/tasks/editable-priority-badge.tsx:42-49 | a re-render with a new prop is `Refresh` |
| `CommentComposer.EnabledExactlyForAcceptedBodies` | src/components/tasks/comment-composer.tsx:51-78 | while idle, the submit button is enabled exactly for bodies the server accepts that are not blank |
| `CommentComposer.LimitBoundary` | src/components/tasks/comment-composer.tsx:51-53 | 5000 characters are allowed by both client and server; 5001 are refused by both |
| `CommentComposer.BlankBodyBlockedOnlyByClient` | src/components/tasks/comment-composer.tsx:78 | a whitespace-only body is blocked by the button but would be accepted by the server as `""` |
| `CommentComposer.Composer.constructor` | src/components/tasks/comment-composer.tsx:17-18 | the composer starts empty and idle |
| `CommentComposer.Composer.Edit` | src/components/tasks/comment-composer.tsx:59-60 | typing replaces the body |
| `CommentComposer.Composer.HandleSubmit` | src/components/tasks/comment-composer.tsx:20-49 | a blank body sends nothing and changes nothing; otherwise the untrimmed body is sent, the form is cleared only when the server reports no error, and the composer ends idle |
| `AttachmentUploader.SelectFile` | src/components/tasks/attachment-uploader.tsx:44-54 | a file over 50 MiB keeps the previous selection; any other file becomes the selection |
| `AttachmentUploader.DragActiveAfter` | src/components/tasks/attachment-uploader.tsx:24-32 | `dragenter` and `dragover` turn the highlight on, `dragleave` turns it off, other events leave it |
| `AttachmentUploader.SelectionStaysWithinLimit` | src/components/tasks/attachment-uploader.tsx:44-54 | the selection never holds a file over the client's limit |
| `AttachmentUploader.SelectedFileNotTooLarge` | src/components/tasks/attachment-uploader.tsx:22 | a file the client selected is never refused by the server for its size, but it can be refused for its type, which the client does not check |
| `AttachmentUploader.Uploader.constructor` | src/components/tasks/attachment-uploader.tsx:18-20 | nothing selected, no highlight, not uploading |
| `AttachmentUploader.Uploader.HandleDrag` | src/components/tasks/attachment-uploader.tsx:24-32 | only the highlight changes, as `DragActiveAfter` says |
| `AttachmentUploader.Uploader.HandleFileSelect` | src/components/tasks/attachment-uploader.tsx:44-54 | the selection becomes `SelectFile` of the old selection and the file; the size invariant is kept |
| `AttachmentUploader.Uploader.HandleDrop` | src/components/tasks/attachment-uploader.tsx:34-42 | the highlight goes off, and the first dropped file, if any, is selected as by `SelectFile` |
| `AttachmentUploader.Uploader.HandleFileChange` | src/components/tasks/attachment-uploader.tsx:56-60 | the first chosen file, if any, is selected as by `SelectFile` |
| `AttachmentUploader.Uploader.HandleUpload` | src/components/tasks/attachment-uploader.tsx:62-92 | the selected file is what is sent; the selection is cleared only when the server reports no error; the uploader ends idle |
| `AttachmentUploader.Uploader.ClearSelection` | src/components/tasks/attachment-uploader.tsx:94-99 | the selection is cleared and nothing else changes |

## Left out

- Talking to the hosted service: the client objects, cookies, the network
  and `revalidatePath` are not modelled. Each remote result is a boolean
  input, and row-level security is folded into those inputs: a row the user
  may not see behaves as a failed read.
- Foreign-key cascades: deleting a project or task does not delete its tasks,
  comments, attachments or activity rows here, because the cascade rules are
  part of the database, not the code. For the same reason `Joined` treats a
  reference to a missing row as absent.
- `getAttachmentUrl` (signed download URLs) is not modelled: it only forwards
  a request to the object store.
- `src/app/actions/auth.ts` (sign in and sign out) is not part of this model.
  The signed-in user is an input.
- Exceptions thrown by the database client land in each action's
  `catch` block and return "An unexpected error occurred". They are not
  modelled. A component receiving an exception is modelled (`Reply.Threw`).
- `ActivityActions.CreateActivity`: the `log*` helpers are called without
  being awaited (`.catch(console.error)`). The model runs them to completion
  at the point of the call, so concurrent interleavings are not modelled.
- Dates: `formatDistanceToNow`, due-date formatting and the database's
  `created_at` defaults are not modelled. Time is an integer clock reading,
  and the database's own checks on due-date format are not modelled.
- String lengths are counted in Unicode characters. JavaScript counts UTF-16
  code units, so the two differ for characters outside the Basic Multilingual
  Plane.
- `AttachmentActions.Sanitize`: a character outside the Basic Multilingual
  Plane is replaced by one `_` here, but the JavaScript regular expression
  sees two UTF-16 code units and writes `__`.
- `Navbar.Initials`: `charAt(0)` takes one UTF-16 code unit, so for a name
  part starting outside the Basic Multilingual Plane the navbar shows half a
  surrogate pair. Here the whole character is taken.
- `Text.Upper` upper-cases ASCII letters only; `toUpperCase` also maps other
  scripts.
- `Navbar.Initials`: the bound of two characters holds only because
  `Text.Upper` maps ASCII letters only. `toUpperCase` can lengthen a string
  ("ß" becomes "SS"), so the navbar can show more than two characters.
- `TaskActions.ValidateTaskInput`: a priority is an integer here, so zod's
  rejection of non-integer numbers is not modelled. zod's own messages for a
  bad status or priority are reduced to the name of the field
  (`InvalidField`).
- `TaskActions.UpdateTask`: a description set to `""` is stored as `""`, as
  the code does. Only creation turns it into null.
- `AttachmentActions.StorageKey`: the timestamp is the `clock` input, not a
  reading of `Date.now()`.
- `AttachmentUploader.Uploader.HandleUpload`: resetting the file input's
  displayed value (`fileInputRef.current.value = ""`) is DOM state and is not
  modelled.
- Visual details are not modelled: colours, icons' artwork, class names, and
  the task card and dialog components.
