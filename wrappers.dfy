/** Result values shared by every module of the model. The actions never
    throw across their boundary: every failure comes back as an `{ error }`
    object, modelled here as `Failure` or `Refused`. */
module Wrappers {

  datatype Option<+T> = None | Some(value: T)

  /** An error as an action reports it: one of the action's own fixed
      messages, or a schema rejection of a field whose message is the
      validation library's default text (not modelled, only the field). */
  datatype Error = Message(text: string) | InvalidField(field: string)

  /** `{ success: true, <row> }` or `{ error }`. */
  datatype Result<+T> = Success(value: T) | Failure(error: Error)

  /** `{ success: true }` or `{ error }`, for actions that return no row. */
  datatype Outcome = Completed | Refused(error: Error)

  /** What a client component gets back from awaiting a server action:
      the action's returned object (with its optional `error` string), or
      an exception thrown by the transport. */
  datatype Reply = Returned(error: Option<string>) | Threw {
    /** `if (result.error)`: an error string is reported only when it is
        truthy, i.e. present and non-empty. */
    predicate ReportsError() {
      Returned? && error.Some? && error.value != ""
    }

    /** The branch that keeps the optimistic value / clears the form. */
    predicate Succeeded() {
      Returned? && !ReportsError()
    }
  }
}
