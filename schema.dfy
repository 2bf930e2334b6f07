/** The string rule the three create schemas share:
    `z.string().min(1, required).max(max, tooLong).trim()`.
    The validation library runs a string's checks in the order they are
    declared, so both length checks see the raw input and only the value
    handed back is trimmed; all issues are collected and the actions
    report the first one. */
module Schema {
  import opened Wrappers
  import opened Text

  function BoundedText(raw: string, max: nat, required: string, tooLong: string): (r: Result<string>)
    ensures r.Success? <==> 1 <= |raw| <= max
    ensures r.Success? ==> r.value == Trim(raw) && |r.value| <= max
    ensures |raw| == 0 ==> r == Failure(Message(required))
    ensures 1 <= |raw| && max < |raw| ==> r == Failure(Message(tooLong))
  {
    if |raw| < 1 then Failure(Message(required))
    else if |raw| > max then Failure(Message(tooLong))
    else Success(Trim(raw))
  }

  /** Length is measured before trimming: a non-empty all-whitespace input
      within the bound is accepted, and the value kept is empty. */
  lemma BlankTextAccepted(raw: string, max: nat, required: string, tooLong: string)
    requires raw != "" && Blank(raw) && |raw| <= max
    ensures BoundedText(raw, max, required, tooLong) == Success("")
  {
  }

  /** Surrounding whitespace counts toward the limit: padding a value that
      fits exactly makes it too long, although trimming would restore it. */
  lemma PaddingCountsTowardLimit(core: string, max: nat, required: string, tooLong: string)
    requires |core| == max && max >= 1
    ensures BoundedText(core + " ", max, required, tooLong) == Failure(Message(tooLong))
  {
  }
}
