/** The server actions on attachments (`src/app/actions/attachments.ts`):
    the upload gate, the storage-key builder, upload with a compensating
    remove, delete, and the reads. */
module AttachmentActions {
  import opened Wrappers
  import opened Text
  import opened Tables
  import opened Entities
  import opened ActivityActions

  /** `ALLOWED_MIME_TYPES`. */
  const AllowedMimeTypes: seq<string> := [
    "image/png", "image/jpeg", "image/jpg", "image/gif", "image/webp",
    "application/pdf", "application/zip", "application/x-zip-compressed"]

  /** `MAX_FILE_SIZE`: 50 MiB in bytes. */
  const MaxFileSize: nat := 50 * 1024 * 1024

  const LoginRequired := "You must be logged in to upload attachments"
  const TaskNotFound := "Task not found"
  const NoFile := "No file provided"
  const TypeNotAllowed := "File type not allowed. Allowed types: images (PNG, JPG, GIF, WebP), PDF, ZIP"
  const TooLarge := "File too large. Maximum size is 50MB"
  const UploadFailed := "Failed to upload file. Please try again."
  const RecordFailed := "Failed to save attachment record"
  const AttachmentNotFound := "Attachment not found"
  const DeleteFailed := "Failed to delete attachment"

  /** The `File` taken from the form: its name, type and size in bytes. */
  datatype File = File(name: string, mimeType: string, size: nat)

  /** The first check `uploadAttachment` fails, in the order it makes them:
      sign-in, task lookup, file present, type, size. */
  function UploadRejection(user: Option<Id>, taskFound: bool, file: Option<File>): (r: Option<string>)
    ensures r.None? <==> (user.Some? && taskFound && file.Some?
                          && file.value.mimeType in AllowedMimeTypes && file.value.size <= MaxFileSize)
    ensures user.None? ==> r == Some(LoginRequired)
    ensures user.Some? && !taskFound ==> r == Some(TaskNotFound)
    ensures user.Some? && taskFound && file.None? ==> r == Some(NoFile)
    ensures user.Some? && taskFound && file.Some? && file.value.mimeType !in AllowedMimeTypes ==>
      r == Some(TypeNotAllowed)
    ensures (user.Some? && taskFound && file.Some? && file.value.mimeType in AllowedMimeTypes
             && file.value.size > MaxFileSize) ==> r == Some(TooLarge)
  {
    if user.None? then Some(LoginRequired)
    else if !taskFound then Some(TaskNotFound)
    else if file.None? then Some(NoFile)
    else if file.value.mimeType !in AllowedMimeTypes then Some(TypeNotAllowed)
    else if file.value.size > MaxFileSize then Some(TooLarge)
    else None
  }

  /** The size ceiling is inclusive, and the type is judged before the size. */
  lemma SizeLimitInclusive(owner: Id, name: string, mimeType: string)
    requires mimeType in AllowedMimeTypes
    ensures UploadRejection(Some(owner), true, Some(File(name, mimeType, 52428800))) == None
    ensures UploadRejection(Some(owner), true, Some(File(name, mimeType, 52428801))) == Some(TooLarge)
    ensures UploadRejection(Some(owner), true, Some(File(name, "text/plain", 52428801))) == Some(TypeNotAllowed)
  {
  }

  predicate IsDot(c: char) {
    c == '.'
  }

  /** The characters `[a-zA-Z0-9.-]` a file name keeps. */
  predicate KeptInName(c: char) {
    ('a' <= c <= 'z') || ('A' <= c <= 'Z') || ('0' <= c <= '9') || c == '.' || c == '-'
  }

  predicate Unsafe(c: char) {
    !KeptInName(c)
  }

  /** `file.name.split(".").pop()`: the text after the last dot of the
      original name, or the whole name when it has no dot. */
  function Extension(name: string): (ext: string)
    ensures '.' !in ext
    ensures '.' !in name ==> ext == name
    ensures '.' in name ==> |ext| < |name| && name[|name| - |ext| - 1] == '.' && name[|name| - |ext|..] == ext
  {
    SplitLastPiece(name, IsDot);
    var ext := LastOf(Split(name, IsDot));
    assert forall j :: 0 <= j < |ext| ==> ext[j] != '.';
    assert FirstWhere(name, IsDot) == |name| <==> '.' !in name by {
      var f := FirstWhere(name, IsDot);
      if f < |name| { assert name[f] == '.'; }
      if '.' in name { var i :| 0 <= i < |name| && name[i] == '.'; assert !(i < f); }
    }
    ext
  }

  /** `.replace(/\.([^.]+)$/, "")`: drops a final dot and the non-empty,
      dot-free text after it; a name ending in a dot, or without one, is
      kept whole. */
  function StripExtension(s: string): (r: string)
    ensures |r| <= |s| && r == s[..|r|]
    ensures r != s <==> exists i :: 0 <= i < |s| - 1 && s[i] == '.' && '.' !in s[i + 1..]
    ensures r != s ==> s[|r|] == '.' && '.' !in s[|r| + 1..]
  {
    match LastIndexOf(s, '.')
    case None => s
    case Some(i) =>
      if i + 1 < |s| then s[..i]
      else
        assert forall j :: 0 <= j < |s| - 1 && s[j] == '.' ==> s[j + 1..][|s| - 1 - (j + 1)] == '.';
        s
  }

  /** `file.name.replace(/[^a-zA-Z0-9.-]/g, "_")` followed by `StripExtension`. */
  function Sanitize(name: string): (r: string)
    ensures |r| <= |name|
    ensures forall i :: 0 <= i < |r| ==> KeptInName(r[i]) || r[i] == '_'
  {
    StripExtension(ReplaceWhere(name, Unsafe, '_'))
  }

  /** Sanitisation replaces each unsafe character by `_` one for one and
      then cuts exactly the original extension when it is non-empty: the
      result is a prefix of the replaced name, uses only kept characters
      and `_`, and is shorter exactly by the extension and its dot. */
  lemma SanitizeShape(name: string)
    ensures var r := Sanitize(name); var replaced := ReplaceWhere(name, Unsafe, '_');
      && r == replaced[..|r|]
      && (forall i :: 0 <= i < |r| ==> KeptInName(r[i]) || r[i] == '_')
      && ('.' in name && Extension(name) != "" ==> |r| == |name| - |Extension(name)| - 1)
      && (!('.' in name && Extension(name) != "") ==> r == replaced)
  {
    var replaced := ReplaceWhere(name, Unsafe, '_');
    var r := Sanitize(name);
    assert forall i :: 0 <= i < |r| ==> r[i] == replaced[i];
    StripMatchesExtension(name, replaced);
  }

  /** Replacing unsafe characters keeps the dots where they were, so the
      final dot that `StripExtension` cuts at is the one `Extension` reads
      after, and it cuts only when the extension is non-empty. */
  lemma StripMatchesExtension(name: string, replaced: string)
    requires replaced == ReplaceWhere(name, Unsafe, '_')
    ensures '.' in name && Extension(name) != "" ==> |StripExtension(replaced)| == |name| - |Extension(name)| - 1
    ensures !('.' in name && Extension(name) != "") ==> StripExtension(replaced) == replaced
  {
    assert forall i :: 0 <= i < |name| ==> (replaced[i] == '.' <==> name[i] == '.');
    if '.' in name && Extension(name) != "" {
      StripCutsAtExtension(name, replaced);
    } else {
      StripKeepsName(name, replaced);
    }
  }

  /** With a non-empty extension, the cut falls at the dot before it. */
  lemma StripCutsAtExtension(name: string, replaced: string)
    requires |replaced| == |name|
    requires forall i :: 0 <= i < |name| ==> (replaced[i] == '.' <==> name[i] == '.')
    requires '.' in name && Extension(name) != ""
    ensures |StripExtension(replaced)| == |name| - |Extension(name)| - 1
  {
    var ext := Extension(name);
    var d := |name| - |ext| - 1;
    assert replaced[d] == '.';
    assert forall j :: d < j < |name| ==> replaced[j] != '.' by {
      forall j | d < j < |name| ensures replaced[j] != '.' {
        assert name[j] == ext[j - (d + 1)];
      }
    }
    assert '.' !in replaced[d + 1..];
    var r := StripExtension(replaced);
    assert r != replaced;
    assert |r| == d by {
      assert replaced[|r|] == '.' && '.' !in replaced[|r| + 1..];
      assert forall j :: |r| < j < |replaced| ==> replaced[j] in replaced[|r| + 1..];
      assert forall j :: d < j < |replaced| ==> replaced[j] in replaced[d + 1..];
    }
  }

  /** Without a dot, or with a dot at the end, nothing is cut. */
  lemma StripKeepsName(name: string, replaced: string)
    requires |replaced| == |name|
    requires forall i :: 0 <= i < |name| ==> (replaced[i] == '.' <==> name[i] == '.')
    requires !('.' in name && Extension(name) != "")
    ensures StripExtension(replaced) == replaced
  {
    if '.' in name {
      assert name[|name| - 1] == '.';
      assert replaced[|replaced| - 1] == '.';
    } else {
      assert forall i :: 0 <= i < |replaced| ==> replaced[i] != '.';
    }
  }

  /** `${user.id}/${taskId}/${sanitizedName}_${timestamp}.${fileExt}`. */
  function StorageKey(owner: Id, taskId: Id, name: string, timestamp: nat): (key: string)
    ensures |owner| + 1 <= |key| && key[..|owner| + 1] == owner + "/"
    ensures |Extension(name)| + 1 <= |key| && key[|key| - |Extension(name)| - 1..] == "." + Extension(name)
  {
    owner + "/" + taskId + "/" + Sanitize(name) + "_" + Decimal(timestamp) + "." + Extension(name)
  }

  /** Two uploads of the same name by the same owner to the same task get
      different keys unless they share a timestamp. */
  lemma KeysDifferByTimestamp(owner: Id, taskId: Id, name: string, t1: nat, t2: nat)
    requires StorageKey(owner, taskId, name, t1) == StorageKey(owner, taskId, name, t2)
    ensures t1 == t2
  {
    var stem, ext := Sanitize(name), Extension(name);
    var d1, d2 := Decimal(t1), Decimal(t2);
    KeyAroundTimestamp(owner, taskId, stem, d1, ext);
    KeyAroundTimestamp(owner, taskId, stem, d2, ext);
    MiddleCancels(owner + "/" + taskId + "/" + stem + "_", d1, d2, "." + ext);
    DecimalRoundTrip(t1);
    DecimalRoundTrip(t2);
  }

  /** The key's text splits around the timestamp. */
  lemma KeyAroundTimestamp(owner: Id, taskId: Id, stem: string, digits: string, ext: string)
    ensures owner + "/" + taskId + "/" + stem + "_" + digits + "." + ext
         == (owner + "/" + taskId + "/" + stem + "_") + digits + ("." + ext)
  {
  }

  /** A name without a dot keeps nothing out and serves as its own
      extension: `README` becomes `README_<t>.README`. */
  lemma NoDotNameKey(owner: Id, taskId: Id, name: string, timestamp: nat)
    requires '.' !in name
    ensures StorageKey(owner, taskId, name, timestamp)
         == owner + "/" + taskId + "/" + ReplaceWhere(name, Unsafe, '_') + "_" + Decimal(timestamp) + "." + name
  {
    SanitizeShape(name);
  }

  /** A name ending in a dot has an empty extension and keeps its dot:
      `a.` becomes `a._<t>.`. */
  lemma TrailingDotKey(owner: Id, taskId: Id, stem: string, timestamp: nat)
    ensures StorageKey(owner, taskId, stem + ".", timestamp)
         == owner + "/" + taskId + "/" + ReplaceWhere(stem + ".", Unsafe, '_') + "_" + Decimal(timestamp) + "."
  {
    var name := stem + ".";
    assert '.' in name by { assert name[|name| - 1] == '.'; }
    var e := Extension(name);
    SplitAppendSeparator(stem, IsDot, '.');
    assert e == "";
    SanitizeShape(name);
  }

  /** The extension in the key is taken from the unsanitised name, so it
      may hold characters the stem would have replaced. */
  lemma ExtensionNotSanitised(owner: Id, taskId: Id, stem: string, ext: string, timestamp: nat)
    requires '.' !in ext && ext != ""
    ensures StorageKey(owner, taskId, stem + "." + ext, timestamp)
         == owner + "/" + taskId + "/" + ReplaceWhere(stem, Unsafe, '_') + "_" + Decimal(timestamp) + "." + ext
  {
    var name := stem + "." + ext;
    ExtensionAfterLastDot(stem, ext);
    SanitizeShape(name);
    var replaced := ReplaceWhere(name, Unsafe, '_');
    assert |Sanitize(name)| == |stem|;
    assert Sanitize(name) == ReplaceWhere(stem, Unsafe, '_') by {
      assert Sanitize(name) == replaced[..|stem|];
      forall i | 0 <= i < |stem| ensures replaced[i] == ReplaceWhere(stem, Unsafe, '_')[i] {
        assert name[i] == stem[i];
      }
    }
  }

  /** A non-empty, dot-free text after a dot is the extension. */
  lemma ExtensionAfterLastDot(stem: string, ext: string)
    requires '.' !in ext && ext != ""
    ensures Extension(stem + "." + ext) == ext
  {
    var name := stem + "." + ext;
    assert name[|stem|] == '.';
    var e := Extension(name);
    var n := |name|;
    assert name[n - |ext|..] == ext;
    assert forall j :: |stem| < j < n ==> name[j] != '.' by {
      forall j | |stem| < j < n ensures name[j] != '.' {
        assert name[j] == ext[j - |stem| - 1];
      }
    }
    assert forall j :: n - |e| <= j < n ==> name[j] == e[j - (n - |e|)];
    assert |e| == |ext|;
  }

  /** The remote outcomes `uploadAttachment` depends on, in the order it
      meets them. `cleanupOk` is the compensating remove, whose result the
      action does not inspect. */
  datatype UploadCalls = UploadCalls(
    taskReadOk: bool, uploadOk: bool, insertOk: bool, newId: Id, cleanupOk: bool,
    titleReadOk: bool, logInsertOk: bool, logId: Id)

  /** The record a successful upload inserts. */
  function NewAttachmentRow(id: Id, taskId: Id, owner: Id, key: string, file: File, now: Time): (a: Attachment)
    ensures a.id == id && a.taskId == taskId && a.ownerId == owner && a.createdAt == now
    ensures a.path == key && a.filename == file.name && a.fileSize == file.size && a.mimeType == file.mimeType
  {
    Attachment(id, taskId, owner, key, file.name, file.size, file.mimeType, now)
  }

  /** The part of `uploadAttachment` after its checks: upload under `key`
      (refused when the key exists, as `upsert: false` asks), insert the
      record, and on an insert failure remove the uploaded key again. On
      success an `attachment_uploaded` entry for `task` is attempted and
      its outcome ignored. */
  method StoreAndRecord(db: Database, owner: Id, task: Task, file: File, key: string,
                        calls: UploadCalls, clock: nat)
    returns (res: Result<Attachment>)
    modifies db`storage, db`attachments, db`activity
    ensures !(calls.uploadOk && key !in old(db.storage)) ==>
      && res == Failure(Message(UploadFailed))
      && db.storage == old(db.storage) && db.attachments == old(db.attachments)
    ensures calls.uploadOk && key !in old(db.storage) && !(calls.insertOk && calls.newId !in old(db.attachments)) ==>
      && res == Failure(Message(RecordFailed))
      && db.storage == (if calls.cleanupOk then old(db.storage) else old(db.storage) + {key})
      && db.attachments == old(db.attachments)
    ensures calls.uploadOk && key !in old(db.storage) && calls.insertOk && calls.newId !in old(db.attachments) ==>
      && res == Success(NewAttachmentRow(calls.newId, task.id, owner, key, file, clock))
      && db.storage == old(db.storage) + {key}
      && db.attachments == old(db.attachments)[calls.newId := res.value]
    ensures res.Success? && calls.titleReadOk && calls.logInsertOk && calls.logId !in old(db.activity) ==>
      db.activity == old(db.activity)[calls.logId := ActivityRow(calls.logId, owner,
        AttachmentUploadedEntry(task.id, task.projectId, task.title, file.name), clock)]
    ensures !(res.Success? && calls.titleReadOk && calls.logInsertOk && calls.logId !in old(db.activity)) ==>
      db.activity == old(db.activity)
    ensures AppendOnly(old(db.activity), db.activity)
  {
    if !calls.uploadOk || key in db.storage {
      return Failure(Message(UploadFailed));
    }
    db.storage := db.storage + {key};
    if !calls.insertOk || calls.newId in db.attachments {
      if calls.cleanupOk {
        db.storage := db.storage - {key};
        assert db.storage == old(db.storage);
      }
      return Failure(Message(RecordFailed));
    }
    var row := NewAttachmentRow(calls.newId, task.id, owner, key, file, clock);
    db.attachments := db.attachments[calls.newId := row];
    if calls.titleReadOk {
      var _ := CreateActivity(db, Some(owner), AttachmentUploadedEntry(task.id, task.projectId, task.title, file.name),
                              calls.logInsertOk, calls.logId, clock);
    }
    res := Success(row);
  }

  /** `uploadAttachment(taskId, formData)`: a request the checks reject
      changes nothing; otherwise the file goes to its storage key and the
      record follows, with the compensations of `StoreAndRecord`. */
  method UploadAttachment(db: Database, user: Option<Id>, taskId: Id, file: Option<File>,
                          calls: UploadCalls, clock: nat)
    returns (res: Result<Attachment>)
    modifies db`storage, db`attachments, db`activity
    ensures UploadRejection(user, calls.taskReadOk && taskId in old(db.tasks), file).Some? ==>
      && res == Failure(Message(UploadRejection(user, calls.taskReadOk && taskId in old(db.tasks), file).value))
      && db.storage == old(db.storage) && db.attachments == old(db.attachments) && db.activity == old(db.activity)
    ensures res.Success? ==>
      && UploadRejection(user, calls.taskReadOk && taskId in old(db.tasks), file).None?
      && res.value == NewAttachmentRow(calls.newId, taskId, user.value,
                                       StorageKey(user.value, taskId, file.value.name, clock), file.value, clock)
      && db.storage == old(db.storage) + {res.value.path}
      && |db.storage| == |old(db.storage)| + 1
      && db.attachments == old(db.attachments)[calls.newId := res.value]
    ensures res.Failure? ==> db.attachments == old(db.attachments) && db.activity == old(db.activity)
    ensures res.Failure? && calls.cleanupOk ==> db.storage == old(db.storage)
    ensures UploadRejection(user, calls.taskReadOk && taskId in old(db.tasks), file).None? ==>
      var key := StorageKey(user.value, taskId, file.value.name, clock);
      var task := old(db.tasks)[taskId];
      && (!(calls.uploadOk && key !in old(db.storage)) ==>
            res == Failure(Message(UploadFailed)) && db.storage == old(db.storage))
      && (calls.uploadOk && key !in old(db.storage) && !(calls.insertOk && calls.newId !in old(db.attachments)) ==>
            && res == Failure(Message(RecordFailed))
            && db.storage == (if calls.cleanupOk then old(db.storage) else old(db.storage) + {key}))
      && (calls.uploadOk && key !in old(db.storage) && calls.insertOk && calls.newId !in old(db.attachments) ==>
            res.Success?)
      && (res.Success? && calls.titleReadOk && calls.logInsertOk && calls.logId !in old(db.activity) ==>
            db.activity == old(db.activity)[calls.logId := ActivityRow(calls.logId, user.value,
              AttachmentUploadedEntry(taskId, task.projectId, task.title, file.value.name), clock)])
      && (!(res.Success? && calls.titleReadOk && calls.logInsertOk && calls.logId !in old(db.activity)) ==>
            db.activity == old(db.activity))
    ensures AppendOnly(old(db.activity), db.activity)
  {
    var rejection := UploadRejection(user, calls.taskReadOk && taskId in db.tasks, file);
    if rejection.Some? {
      return Failure(Message(rejection.value));
    }
    var task := db.tasks[taskId];
    var key := StorageKey(user.value, taskId, file.value.name, clock);
    var stored := db.storage;
    res := StoreAndRecord(db, user.value, task.(id := taskId), file.value, key, calls, clock);
    if res.Success? {
      AddFreshKey(stored, key);
    }
  }

  /** Storing under a fresh key adds one object. */
  lemma AddFreshKey(storage: set<string>, key: string)
    requires key !in storage
    ensures |storage + {key}| == |storage| + 1
  {
  }

  /** `deleteAttachment(id)`: an unknown id changes nothing; otherwise the
      stored object is removed first, a failure there is ignored, and then
      the record is deleted. A failed record delete can therefore leave a
      record whose object is gone. */
  method DeleteAttachment(db: Database, id: Id, fetchOk: bool, storageOk: bool, deleteOk: bool)
    returns (res: Outcome)
    modifies db`storage, db`attachments
    ensures !(fetchOk && id in old(db.attachments)) ==>
      && res == Refused(Message(AttachmentNotFound))
      && db.storage == old(db.storage) && db.attachments == old(db.attachments)
    ensures fetchOk && id in old(db.attachments) ==>
      && db.storage == (if storageOk then old(db.storage) - {old(db.attachments)[id].path} else old(db.storage))
      && (deleteOk ==> res == Completed && db.attachments == old(db.attachments) - {id})
      && (!deleteOk ==> res == Refused(Message(DeleteFailed)) && db.attachments == old(db.attachments))
  {
    if !fetchOk || id !in db.attachments {
      return Refused(Message(AttachmentNotFound));
    }
    var attachment := db.attachments[id];
    if storageOk {
      db.storage := db.storage - {attachment.path};
    }
    if !deleteOk {
      return Refused(Message(DeleteFailed));
    }
    db.attachments := db.attachments - {id};
    res := Completed;
  }

  predicate OfTask(a: Attachment, taskId: Id) {
    a.taskId == taskId
  }

  function NewestAttachmentFirst(a: Attachment): int {
    -a.createdAt
  }

  /** The number of attachments on a task. */
  function AttachmentCountOf(attachments: map<Id, Attachment>, taskId: Id): nat {
    CountWhere(attachments, (a: Attachment) => OfTask(a, taskId))
  }

  /** A task's attachments, newest first. */
  ghost function AttachmentsOf(attachments: map<Id, Attachment>, taskId: Id): (r: seq<Attachment>)
    ensures forall a :: a in r <==> a in attachments.Values && a.taskId == taskId
    ensures |r| == AttachmentCountOf(attachments, taskId)
    ensures forall i, j :: 0 <= i < j < |r| ==> r[i].createdAt >= r[j].createdAt
  {
    var r := Query(attachments, (a: Attachment) => OfTask(a, taskId), NewestAttachmentFirst);
    forall i, j | 0 <= i < j < |r| ensures r[i].createdAt >= r[j].createdAt {
      assert NewestAttachmentFirst(r[i]) <= NewestAttachmentFirst(r[j]);
    }
    r
  }

  /** `getAttachments(taskId)`: `[]` when the query fails. */
  ghost function GetAttachments(db: Database, taskId: Id, readOk: bool): (r: seq<Attachment>)
    reads db
    ensures !readOk ==> r == []
    ensures readOk ==> r == AttachmentsOf(db.attachments, taskId)
  {
    if readOk then AttachmentsOf(db.attachments, taskId) else []
  }

  /** `getAttachmentCount(taskId)`: `0` when the query fails. */
  function GetAttachmentCount(db: Database, taskId: Id, readOk: bool): (n: nat)
    reads db
    ensures n == |GetAttachments(db, taskId, readOk)|
  {
    if readOk then AttachmentCountOf(db.attachments, taskId) else 0
  }

  /** An uploaded record is listed under its task and raises the count by
      one; deleting it takes the count back. */
  lemma {:induction false} AttachmentCountTracksWrites(attachments: map<Id, Attachment>, a: Attachment)
    requires a.id !in attachments
    ensures AttachmentCountOf(attachments[a.id := a], a.taskId) == AttachmentCountOf(attachments, a.taskId) + 1
    ensures a in AttachmentsOf(attachments[a.id := a], a.taskId)
    ensures AttachmentCountOf(attachments[a.id := a] - {a.id}, a.taskId) == AttachmentCountOf(attachments, a.taskId)
  {
    var after := attachments[a.id := a];
    CountAfterInsert(attachments, a.id, a, (x: Attachment) => OfTask(x, a.taskId));
    assert a.id in after && after[a.id] == a;
    assert after - {a.id} == attachments;
  }
}
