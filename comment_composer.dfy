/** The comment form on the task page
    (`src/components/tasks/comment-composer.tsx`). */
module CommentComposer {
  import opened Wrappers
  import opened Text
  import opened CommentActions

  /** `maxChars`. */
  const MaxChars: nat := 5000

  /** `isOverLimit`: the body is longer than the counter allows. */
  predicate OverLimit(body: string) {
    |body| > MaxChars
  }

  /** The submit button's `disabled`: while submitting, for a body that
      trims to nothing, or over the limit. */
  predicate SubmitDisabled(body: string, isSubmitting: bool) {
    isSubmitting || Trim(body) == "" || OverLimit(body)
  }

  /** The button is enabled exactly for the bodies the server's length
      checks accept and that are not all whitespace: the client limit and
      the server limit agree, and the client is stricter only on blanks. */
  lemma EnabledExactlyForAcceptedBodies(body: string)
    ensures !SubmitDisabled(body, false) <==> ValidateCommentBody(body).Success? && !Blank(body)
  {
  }

  /** The limit is inclusive on both sides: 5000 characters can be sent,
      5001 cannot. */
  lemma LimitBoundary(body: string)
    requires !Blank(body)
    ensures |body| == 5000 ==> !SubmitDisabled(body, false) && ValidateCommentBody(body).Success?
    ensures |body| == 5001 ==> SubmitDisabled(body, false) && ValidateCommentBody(body).Failure?
  {
  }

  /** The server on its own accepts a non-empty blank body and stores it as
      empty; only the form keeps it from being sent. */
  lemma BlankBodyBlockedOnlyByClient(body: string)
    requires body != "" && Blank(body) && |body| <= MaxChars
    ensures SubmitDisabled(body, false)
    ensures ValidateCommentBody(body) == Success("")
  {
  }

  class Composer {
    var body: string
    var isSubmitting: bool

    constructor ()
      ensures body == "" && !isSubmitting
    {
      body, isSubmitting := "", false;
    }

    /** The textarea's `onChange`. */
    method Edit(text: string)
      modifies this
      ensures body == text && isSubmitting == old(isSubmitting)
    {
      body := text;
    }

    /** `handleSubmit` with the reply of `createComment`: a blank body is
        not sent; otherwise the raw body is sent, cleared on success, and
        kept on an error result or a thrown error. */
    method HandleSubmit(reply: Reply) returns (sent: Option<string>)
      modifies this
      ensures sent.None? <==> Trim(old(body)) == ""
      ensures sent.None? ==> body == old(body) && isSubmitting == old(isSubmitting)
      ensures sent.Some? ==> sent.value == old(body) && !isSubmitting
      ensures sent.Some? ==> body == if reply.Succeeded() then "" else old(body)
    {
      if Trim(body) == "" {
        return None;
      }
      isSubmitting := true;
      sent := Some(body);
      if reply.Succeeded() {
        body := "";
      }
      isSubmitting := false;
    }
  }
}
