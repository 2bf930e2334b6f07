/** The upload box on the task page
    (`src/components/tasks/attachment-uploader.tsx`): drag state, the
    selected file, and the upload itself. */
module AttachmentUploader {
  import opened Wrappers
  import opened AttachmentActions

  /** The client's own `MAX_FILE_SIZE`: 50 MiB. */
  const ClientMaxFileSize: nat := 50 * 1024 * 1024

  /** `handleFileSelect(file)` on the selection: a file over the limit is
      refused and the selection stays; any other file replaces it. */
  function SelectFile(selected: Option<File>, file: File): (r: Option<File>)
    ensures file.size > ClientMaxFileSize ==> r == selected
    ensures file.size <= ClientMaxFileSize ==> r == Some(file)
  {
    if file.size > ClientMaxFileSize then selected else Some(file)
  }

  /** `handleDrag(e)` on `dragActive`. */
  function DragActiveAfter(active: bool, eventType: string): (r: bool)
    ensures eventType == "dragenter" || eventType == "dragover" ==> r
    ensures eventType == "dragleave" ==> !r
    ensures eventType !in {"dragenter", "dragover", "dragleave"} ==> r == active
  {
    if eventType == "dragenter" || eventType == "dragover" then true
    else if eventType == "dragleave" then false
    else active
  }

  /** A selection only ever holds a file within the limit. */
  predicate WithinLimit(selected: Option<File>) {
    selected.None? || selected.value.size <= ClientMaxFileSize
  }

  /** Selecting keeps the selection within the limit. */
  lemma SelectionStaysWithinLimit(selected: Option<File>, file: File)
    requires WithinLimit(selected)
    ensures WithinLimit(SelectFile(selected, file))
  {
  }

  /** The client limit is the server limit, so a selected file is never
      refused by the server for its size; its type is not checked by the
      client and can still be refused. */
  lemma SelectedFileNotTooLarge(owner: string, file: File)
    requires WithinLimit(Some(file))
    ensures UploadRejection(Some(owner), true, Some(file)) != Some(TooLarge)
    ensures file.mimeType !in AllowedMimeTypes ==>
      UploadRejection(Some(owner), true, Some(file)) == Some(TypeNotAllowed)
  {
  }

  class Uploader {
    var selectedFile: Option<File>
    var dragActive: bool
    var isUploading: bool

    predicate Valid()
      reads this
    {
      WithinLimit(selectedFile)
    }

    constructor ()
      ensures Valid()
      ensures selectedFile == None && !dragActive && !isUploading
    {
      selectedFile, dragActive, isUploading := None, false, false;
    }

    /** `handleDrag(e)` for an event of type `eventType`. */
    method HandleDrag(eventType: string)
      modifies this
      ensures dragActive == DragActiveAfter(old(dragActive), eventType)
      ensures selectedFile == old(selectedFile) && isUploading == old(isUploading)
    {
      if eventType == "dragenter" || eventType == "dragover" {
        dragActive := true;
      } else if eventType == "dragleave" {
        dragActive := false;
      }
    }

    /** `handleFileSelect(file)`. */
    method HandleFileSelect(file: File)
      requires Valid()
      modifies this
      ensures Valid()
      ensures selectedFile == SelectFile(old(selectedFile), file)
      ensures dragActive == old(dragActive) && isUploading == old(isUploading)
    {
      if file.size > ClientMaxFileSize {
        return;
      }
      selectedFile := Some(file);
    }

    /** `handleDrop(e)`: the drag ends and the first dropped file, if any,
        is selected. */
    method HandleDrop(files: seq<File>)
      requires Valid()
      modifies this
      ensures Valid()
      ensures !dragActive
      ensures files == [] ==> selectedFile == old(selectedFile)
      ensures files != [] ==> selectedFile == SelectFile(old(selectedFile), files[0])
      ensures isUploading == old(isUploading)
    {
      dragActive := false;
      if files != [] {
        HandleFileSelect(files[0]);
      }
    }

    /** `handleFileChange(e)`: the first chosen file, if any, is selected. */
    method HandleFileChange(files: seq<File>)
      requires Valid()
      modifies this
      ensures Valid()
      ensures files == [] ==> selectedFile == old(selectedFile)
      ensures files != [] ==> selectedFile == SelectFile(old(selectedFile), files[0])
      ensures dragActive == old(dragActive) && isUploading == old(isUploading)
    {
      if files != [] {
        HandleFileSelect(files[0]);
      }
    }

    /** `handleUpload()` with the reply of `uploadAttachment`: nothing
        happens without a selection; otherwise the selected file is sent,
        the selection is cleared on success and kept on an error result or
        a thrown error. */
    method HandleUpload(reply: Reply) returns (sent: Option<File>)
      requires Valid()
      modifies this
      ensures Valid()
      ensures sent == old(selectedFile)
      ensures sent.None? ==> selectedFile == None && isUploading == old(isUploading)
      ensures sent.Some? ==> !isUploading
      ensures sent.Some? ==> selectedFile == if reply.Succeeded() then None else old(selectedFile)
      ensures dragActive == old(dragActive)
    {
      sent := selectedFile;
      if selectedFile.None? {
        return;
      }
      isUploading := true;
      if reply.Succeeded() {
        selectedFile := None;
      }
      isUploading := false;
    }

    /** `clearSelection()`. */
    method ClearSelection()
      modifies this
      ensures Valid()
      ensures selectedFile == None && dragActive == old(dragActive) && isUploading == old(isUploading)
    {
      selectedFile := None;
    }
  }
}
