/** The editable priority badge of a task card
    (`src/components/tasks/editable-priority-badge.tsx`). */
module PriorityBadge {
  import opened Wrappers
  import opened Tables
  import opened Entities
  import opened OptimisticBadge

  /** `priorityOptions`, in menu order. */
  const PriorityOptions: seq<Priority> := [1, 2, 3]

  /** `priorityConfig[p].label`. */
  function PriorityLabel(p: Priority): string {
    if p == 1 then "Low" else if p == 2 then "Medium" else "High"
  }

  /** The menu offers every priority once, under distinct labels. */
  lemma PriorityOptionsComplete()
    ensures |PriorityOptions| == 3 && Distinct(PriorityOptions)
    ensures forall p: Priority :: p in PriorityOptions
    ensures forall p: Priority, q: Priority :: PriorityLabel(p) == PriorityLabel(q) ==> p == q
  {
  }

  class EditablePriorityBadge {
    var currentPriority: Priority
    var optimisticPriority: Priority
    var isUpdating: bool

    function State(): Badge<Priority>
      reads this
    {
      Badge(currentPriority, optimisticPriority, isUpdating)
    }

    constructor (current: Priority)
      ensures State() == Mount(current)
    {
      currentPriority, optimisticPriority, isUpdating := current, current, false;
    }

    /** `handlePriorityChange(newPriority)` with the reply of `updateTaskPriority`. */
    method HandlePriorityChange(newPriority: Priority, reply: Reply)
      modifies this
      ensures State() == Handle(old(State()), newPriority, reply)
    {
      if newPriority == currentPriority {
        return;
      }
      optimisticPriority := newPriority;
      isUpdating := true;
      if !reply.Succeeded() {
        optimisticPriority := currentPriority;
      }
      isUpdating := false;
    }

    /** A re-render with a new `currentPriority` prop. */
    method ReceiveProps(current: Priority)
      modifies this
      ensures State() == Refresh(old(State()), current)
    {
      currentPriority := current;
    }
  }
}
