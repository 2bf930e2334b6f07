/** The editable status badge of a task card
    (`src/components/tasks/editable-status-badge.tsx`). */
module StatusBadge {
  import opened Wrappers
  import opened Tables
  import opened Entities
  import opened OptimisticBadge

  /** `statusOptions`, in menu order. */
  const StatusOptions: seq<Status> := [Todo, InProgress, Done]

  /** `statusConfig[s].label`. */
  function StatusLabel(s: Status): string {
    match s
    case Todo => "Todo"
    case InProgress => "In Progress"
    case Done => "Done"
  }

  /** The menu offers every status once, under distinct labels, and the
      server's enum accepts every option's wire name as that status. */
  lemma StatusOptionsComplete()
    ensures |StatusOptions| == 3 && Distinct(StatusOptions)
    ensures forall s: Status :: s in StatusOptions
    ensures forall s, t :: StatusLabel(s) == StatusLabel(t) ==> s == t
    ensures forall s :: ParseStatus(StatusName(s)) == Some(s)
  {
    forall s: Status ensures s in StatusOptions {
      var i := match s case Todo => 0 case InProgress => 1 case Done => 2;
      assert StatusOptions[i] == s;
    }
  }

  class EditableStatusBadge {
    var currentStatus: Status
    var optimisticStatus: Status
    var isUpdating: bool

    function State(): Badge<Status>
      reads this
    {
      Badge(currentStatus, optimisticStatus, isUpdating)
    }

    constructor (current: Status)
      ensures State() == Mount(current)
    {
      currentStatus, optimisticStatus, isUpdating := current, current, false;
    }

    /** `handleStatusChange(newStatus)` with the reply of `updateTaskStatus`. */
    method HandleStatusChange(newStatus: Status, reply: Reply)
      modifies this
      ensures State() == Handle(old(State()), newStatus, reply)
    {
      if newStatus == currentStatus {
        return;
      }
      optimisticStatus := newStatus;
      isUpdating := true;
      if !reply.Succeeded() {
        optimisticStatus := currentStatus;
      }
      isUpdating := false;
    }

    /** A re-render with a new `currentStatus` prop. */
    method ReceiveProps(current: Status)
      modifies this
      ensures State() == Refresh(old(State()), current)
    {
      currentStatus := current;
    }
  }
}
