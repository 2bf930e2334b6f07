/** The server actions on comments (`src/app/actions/comments.ts`). */
module CommentActions {
  import opened Wrappers
  import opened Text
  import opened Tables
  import opened Entities
  import opened Schema
  import opened ActivityActions

  const MaxBody: nat := 5000
  const BodyRequired := "Comment cannot be empty"
  const BodyTooLong := "Comment must be less than 5000 characters"
  const LoginRequired := "You must be logged in to comment"
  const TaskNotFound := "Task not found"
  const CreateFailed := "Failed to create comment. Please try again."
  const DeleteFailed := "Failed to delete comment"

  /** `createCommentSchema.parse({ body })`. */
  function ValidateCommentBody(body: string): (r: Result<string>)
    ensures r.Success? <==> 1 <= |body| <= MaxBody
    ensures |body| == 0 ==> r == Failure(Message(BodyRequired))
    ensures |body| > MaxBody ==> r == Failure(Message(BodyTooLong))
    ensures r.Success? ==> r.value == Trim(body) && |r.value| <= MaxBody
  {
    BoundedText(body, MaxBody, BodyRequired, BodyTooLong)
  }

  /** The remote outcomes `createComment` depends on, in the order it
      meets them: the task lookup, the insert, the title lookup for the
      activity entry, and the activity insert. */
  datatype CommentCalls = CommentCalls(
    taskReadOk: bool, insertOk: bool, newId: Id,
    titleReadOk: bool, logInsertOk: bool, logId: Id)

  /** Every check `createComment` makes before it inserts, passed. */
  ghost predicate CommentAccepted(db: Database, user: Option<Id>, taskId: Id, body: string, calls: CommentCalls)
    reads db
  {
    && ValidateCommentBody(body).Success? && user.Some?
    && calls.taskReadOk && taskId in db.tasks
    && calls.insertOk && calls.newId !in db.comments
  }

  /** `createComment(taskId, body)`: validate, sign-in, task lookup, insert,
      in that order; the first failure decides the message and nothing is
      written. After the insert a `comment_added` entry is attempted when
      the task's title can be read; its outcome is ignored. */
  method CreateComment(db: Database, user: Option<Id>, taskId: Id, body: string, calls: CommentCalls, now: Time)
    returns (res: Result<Comment>)
    modifies db`comments, db`activity
    ensures ValidateCommentBody(body).Failure? ==> res == Failure(ValidateCommentBody(body).error)
    ensures ValidateCommentBody(body).Success? && user.None? ==> res == Failure(Message(LoginRequired))
    ensures ValidateCommentBody(body).Success? && user.Some? && !(calls.taskReadOk && taskId in old(db.tasks)) ==>
      res == Failure(Message(TaskNotFound))
    ensures ValidateCommentBody(body).Success? && user.Some? && calls.taskReadOk && taskId in old(db.tasks)
            && !(calls.insertOk && calls.newId !in old(db.comments)) ==>
      res == Failure(Message(CreateFailed))
    ensures res.Failure? ==> db.comments == old(db.comments) && db.activity == old(db.activity)
    ensures res.Success? <==> old(CommentAccepted(db, user, taskId, body, calls))
    ensures res.Success? ==>
      && res.value == Comment(calls.newId, taskId, user.value, ValidateCommentBody(body).value, now)
      && db.comments == old(db.comments)[calls.newId := res.value]
    ensures res.Success? && calls.titleReadOk && calls.logInsertOk && calls.logId !in old(db.activity) ==>
      var task := old(db.tasks)[taskId];
      db.activity == old(db.activity)[calls.logId :=
        ActivityRow(calls.logId, user.value, CommentAddedEntry(taskId, task.projectId, task.title), now)]
    ensures !(res.Success? && calls.titleReadOk && calls.logInsertOk && calls.logId !in old(db.activity)) ==>
      db.activity == old(db.activity)
    ensures AppendOnly(old(db.activity), db.activity)
  {
    var v := ValidateCommentBody(body);
    if v.Failure? {
      return Failure(v.error);
    }
    if user.None? {
      return Failure(Message(LoginRequired));
    }
    if !calls.taskReadOk || taskId !in db.tasks {
      return Failure(Message(TaskNotFound));
    }
    var task := db.tasks[taskId];
    if !calls.insertOk || calls.newId in db.comments {
      return Failure(Message(CreateFailed));
    }
    var row := Comment(calls.newId, taskId, user.value, v.value, now);
    db.comments := db.comments[calls.newId := row];
    if calls.titleReadOk {
      var _ := CreateActivity(db, user, CommentAddedEntry(taskId, task.projectId, task.title),
                              calls.logInsertOk, calls.logId, now);
    }
    res := Success(row);
  }

  /** `deleteComment(id)`: deleting an id that matches no row still succeeds. */
  method DeleteComment(db: Database, id: Id, deleteOk: bool) returns (res: Outcome)
    modifies db`comments
    ensures !deleteOk ==> res == Refused(Message(DeleteFailed)) && db.comments == old(db.comments)
    ensures deleteOk ==> res == Completed && db.comments == old(db.comments) - {id}
  {
    if !deleteOk {
      return Refused(Message(DeleteFailed));
    }
    db.comments := db.comments - {id};
    res := Completed;
  }

  predicate OnTask(c: Comment, taskId: Id) {
    c.taskId == taskId
  }

  function OldestCommentFirst(c: Comment): int {
    c.createdAt
  }

  /** The number of comments on a task. */
  function CommentCountOf(comments: map<Id, Comment>, taskId: Id): nat {
    CountWhere(comments, (c: Comment) => OnTask(c, taskId))
  }

  /** A task's comments, oldest first (the newest is last). */
  ghost function CommentsOf(comments: map<Id, Comment>, taskId: Id): (r: seq<Comment>)
    ensures forall c :: c in r <==> c in comments.Values && c.taskId == taskId
    ensures |r| == CommentCountOf(comments, taskId)
    ensures forall i, j :: 0 <= i < j < |r| ==> r[i].createdAt <= r[j].createdAt
  {
    var r := Query(comments, (c: Comment) => OnTask(c, taskId), OldestCommentFirst);
    forall i, j | 0 <= i < j < |r| ensures r[i].createdAt <= r[j].createdAt {
      assert OldestCommentFirst(r[i]) <= OldestCommentFirst(r[j]);
    }
    r
  }

  /** `getComments(taskId)`: `[]` when the query fails. */
  ghost function GetComments(db: Database, taskId: Id, readOk: bool): (r: seq<Comment>)
    reads db
    ensures !readOk ==> r == []
    ensures readOk ==> r == CommentsOf(db.comments, taskId)
  {
    if readOk then CommentsOf(db.comments, taskId) else []
  }

  /** `getCommentCount(taskId)`: `0` when the query fails. */
  function GetCommentCount(db: Database, taskId: Id, readOk: bool): (n: nat)
    reads db
    ensures n == |GetComments(db, taskId, readOk)|
  {
    if readOk then CommentCountOf(db.comments, taskId) else 0
  }

  /** Creating a comment adds one to its task's count and lists it;
      deleting it takes the count back. */
  lemma {:induction false} CommentCountTracksWrites(comments: map<Id, Comment>, c: Comment)
    requires c.id !in comments
    ensures CommentCountOf(comments[c.id := c], c.taskId) == CommentCountOf(comments, c.taskId) + 1
    ensures c in CommentsOf(comments[c.id := c], c.taskId)
    ensures CommentCountOf(comments[c.id := c] - {c.id}, c.taskId) == CommentCountOf(comments, c.taskId)
  {
    var after := comments[c.id := c];
    CountAfterInsert(comments, c.id, c, (x: Comment) => OnTask(x, c.taskId));
    assert c.id in after && after[c.id] == c;
    assert after - {c.id} == comments;
  }
}
