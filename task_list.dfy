/** The project page's task list (`src/components/tasks/task-list.tsx`):
    per-status counts, the active filter, and the tasks it shows. */
module TaskList {
  import opened Entities

  /** `activeFilter`: "all" or one status. */
  datatype Filter = All | Only(status: Status)

  /** The filter a freshly mounted list starts with. */
  const InitialFilter: Filter := All

  /** `counts`: one number per filter tab. */
  datatype Counts = Counts(all: nat, todo: nat, inProgress: nat, done: nat)

  /** `tasks.filter((t) => t.status === s)`. */
  function WithStatus(tasks: seq<Task>, s: Status): (r: seq<Task>)
    ensures |r| <= |tasks|
    ensures forall t :: t in r <==> t in tasks && t.status == s
  {
    if tasks == [] then []
    else if tasks[0].status == s then [tasks[0]] + WithStatus(tasks[1..], s)
    else WithStatus(tasks[1..], s)
  }

  function TaskCounts(tasks: seq<Task>): (c: Counts)
    ensures c.all == |tasks|
  {
    Counts(|tasks|, |WithStatus(tasks, Todo)|, |WithStatus(tasks, InProgress)|, |WithStatus(tasks, Done)|)
  }

  /** The count shown on a filter's tab. */
  function CountFor(c: Counts, f: Filter): nat {
    match f
    case All => c.all
    case Only(Todo) => c.todo
    case Only(InProgress) => c.inProgress
    case Only(Done) => c.done
  }

  /** `filteredTasks`: the whole list for "all", otherwise the tasks with
      the chosen status. */
  function FilteredTasks(tasks: seq<Task>, f: Filter): (r: seq<Task>)
    ensures f.All? ==> r == tasks
    ensures f.Only? ==> forall t :: t in r <==> t in tasks && t.status == f.status
  {
    match f
    case All => tasks
    case Only(s) => WithStatus(tasks, s)
  }

  /** `a` is `b` with some elements left out and the rest in their order. */
  predicate Subsequence<T(==)>(a: seq<T>, b: seq<T>)
    decreases |b|
  {
    if a == [] then true
    else if b == [] then false
    else (a[0] == b[0] && Subsequence(a[1..], b[1..])) || Subsequence(a, b[1..])
  }

  /** Every task has one of the three statuses, so the three status counts
      add up to the total. */
  lemma {:induction false} CountsPartition(tasks: seq<Task>)
    ensures var c := TaskCounts(tasks); c.todo + c.inProgress + c.done == c.all
  {
    if tasks != [] {
      CountsPartition(tasks[1..]);
    }
  }

  /** The list a tab shows is exactly as long as the count on the tab. */
  lemma FilteredLengthMatchesCount(tasks: seq<Task>, f: Filter)
    ensures |FilteredTasks(tasks, f)| == CountFor(TaskCounts(tasks), f)
  {
  }

  /** Filtering keeps the tasks' original order. */
  lemma {:induction false} FilterKeepsOrder(tasks: seq<Task>, s: Status)
    ensures Subsequence(WithStatus(tasks, s), tasks)
  {
    if tasks != [] {
      FilterKeepsOrder(tasks[1..], s);
      var rest := WithStatus(tasks[1..], s);
      if tasks[0].status == s {
        assert ([tasks[0]] + rest)[1..] == rest;
      } else {
        SubsequenceOfTail(rest, tasks);
      }
    }
  }

  lemma {:induction false} SubsequenceOfTail<T>(a: seq<T>, b: seq<T>)
    requires b != [] && Subsequence(a, b[1..])
    ensures Subsequence(a, b)
  {
  }

  /** Choosing a tab twice shows the same list as choosing it once. */
  lemma {:induction false} FilterIdempotent(tasks: seq<Task>, f: Filter)
    ensures FilteredTasks(FilteredTasks(tasks, f), f) == FilteredTasks(tasks, f)
  {
    if f.Only? && tasks != [] {
      FilterIdempotent(tasks[1..], f);
      if tasks[0].status == f.status {
        assert ([tasks[0]] + WithStatus(tasks[1..], f.status))[1..] == WithStatus(tasks[1..], f.status);
      }
    }
  }

  /** What the list renders: the "No tasks yet" state for a project
      without tasks, a per-tab empty state, or the cards. */
  datatype ListView = NoTasksYet | NoneInTab(heading: string) | Cards(tasks: seq<Task>)

  /** The empty tab's heading, `No ${activeFilter.replace("_", " ")} tasks`. */
  function TabHeading(f: Filter): string {
    match f
    case All => "No all tasks"
    case Only(Todo) => "No todo tasks"
    case Only(InProgress) => "No in progress tasks"
    case Only(Done) => "No done tasks"
  }

  function ListViewOf(tasks: seq<Task>, f: Filter): (v: ListView)
    ensures v.NoTasksYet? <==> tasks == []
    ensures v.Cards? ==> v.tasks == FilteredTasks(tasks, f) && v.tasks != []
    ensures v.NoneInTab? ==> f.Only? && CountFor(TaskCounts(tasks), f) == 0
    ensures v.NoneInTab? ==> v.heading == TabHeading(f)
  {
    if tasks == [] then NoTasksYet
    else
      var shown := FilteredTasks(tasks, f);
      FilteredLengthMatchesCount(tasks, f);
      if shown == [] then NoneInTab(TabHeading(f)) else Cards(shown)
  }
}
