/** The optimistic-update state machine that the editable status badge
    and the editable priority badge both run: the `current` prop the page
    rendered, the value the badge shows, and whether a request is in
    flight. The handler compares the choice with the prop, not with the
    shown value, and reverts to the prop. */
module OptimisticBadge {
  import opened Wrappers

  datatype Badge<T> = Badge(current: T, optimistic: T, isUpdating: bool)

  /** A badge as first rendered: `useState(current)`, `useState(false)`. */
  function Mount<T>(current: T): (b: Badge<T>)
    ensures b.optimistic == b.current == current && !b.isUpdating
  {
    Badge(current, current, false)
  }

  /** The handler up to the `await`: a choice equal to the prop is
      ignored; otherwise the choice is shown and the request starts. */
  function Begin<T(==)>(b: Badge<T>, choice: T): (r: Badge<T>)
    ensures choice == b.current ==> r == b
    ensures choice != b.current ==> r == Badge(b.current, choice, true)
  {
    if choice == b.current then b else b.(optimistic := choice, isUpdating := true)
  }

  /** The handler after the `await`: an error result or a thrown error
      reverts the shown value to the prop; either way the request ends. */
  function Finish<T>(b: Badge<T>, reply: Reply): (r: Badge<T>)
    ensures r.current == b.current && !r.isUpdating
    ensures reply.Succeeded() ==> r.optimistic == b.optimistic
    ensures !reply.Succeeded() ==> r.optimistic == b.current
  {
    var shown := if reply.Succeeded() then b.optimistic else b.current;
    b.(optimistic := shown, isUpdating := false)
  }

  /** The whole handler for one choice and the server's reply. */
  function Handle<T(==)>(b: Badge<T>, choice: T, reply: Reply): (r: Badge<T>)
    ensures choice == b.current ==> r == b
    ensures choice != b.current ==> r.current == b.current && !r.isUpdating
    ensures choice != b.current ==> r.optimistic == if reply.Succeeded() then choice else b.current
  {
    if choice == b.current then b else Finish(Begin(b, choice), reply)
  }

  /** A re-render with a new prop (after `router.refresh()`): `useState`
      keeps the shown value, only the prop changes. */
  function Refresh<T>(b: Badge<T>, current: T): (r: Badge<T>)
    ensures r.current == current && r.optimistic == b.optimistic && r.isUpdating == b.isUpdating
  {
    b.(current := current)
  }

  /** Until the page passes the new prop, the badge shows the new value
      but choosing the old one again is ignored, because the handler
      compares with the prop. */
  lemma StalePropIgnoresReturn<T>(current: T, choice: T, ok: Reply, next: Reply)
    requires choice != current && ok.Succeeded()
    ensures var b := Handle(Mount(current), choice, ok);
      b.optimistic == choice && Handle(b, current, next) == b
  {
  }

  /** A failure after an earlier success reverts to the prop the page
      rendered, not to the value the badge was showing. */
  lemma RevertGoesToProp<T>(current: T, first: T, second: T, ok: Reply, failed: Reply)
    requires first != current && second != current && ok.Succeeded() && !failed.Succeeded()
    ensures var b := Handle(Mount(current), first, ok);
      Handle(b, second, failed).optimistic == current
  {
  }

  /** Once the new prop arrives, the shown value and the prop agree again
      and every other choice goes to the server. */
  lemma RefreshRealigns<T>(current: T, choice: T, ok: Reply, other: T, reply: Reply)
    requires choice != current && ok.Succeeded() && other != choice
    ensures var b := Refresh(Handle(Mount(current), choice, ok), choice);
      && b == Mount(choice)
      && Handle(b, other, reply).optimistic == if reply.Succeeded() then other else choice
  {
  }

  /** After any run of handled choices nothing is in flight, the prop is
      untouched, and the badge shows the prop, what it showed before, or
      one of the choices (which one, `HandleAllShowsLastEffective` says). */
  lemma {:induction false} HandleAllSettles<T>(b: Badge<T>, choices: seq<T>, replies: seq<Reply>)
    requires |choices| == |replies| && !b.isUpdating
    ensures var r := HandleAll(b, choices, replies);
      && !r.isUpdating && r.current == b.current
      && (r.optimistic == b.current || r.optimistic == b.optimistic || r.optimistic in choices)
    decreases |choices|
  {
    if choices != [] {
      var b1 := Handle(b, choices[0], replies[0]);
      HandleAllSettles(b1, choices[1..], replies[1..]);
    }
  }

  /** A run of choices, each handled to completion before the next. */
  function HandleAll<T(==)>(b: Badge<T>, choices: seq<T>, replies: seq<Reply>): Badge<T>
    requires |choices| == |replies|
    decreases |choices|
  {
    if choices == [] then b else HandleAll(Handle(b, choices[0], replies[0]), choices[1..], replies[1..])
  }

  /** What a badge with prop `current` shows after a run of choices, read
      from the end: the last choice that differs from the prop decides, as
      itself when its request succeeded and as the prop when it failed;
      when every choice equalled the prop, the badge still shows `shown`. */
  function LastEffective<T(==)>(current: T, shown: T, choices: seq<T>, replies: seq<Reply>): (r: T)
    requires |choices| == |replies|
    ensures r == current || r == shown || r in choices
    decreases |choices|
  {
    if choices == [] then shown
    else
      var i := |choices| - 1;
      if choices[i] == current then LastEffective(current, shown, choices[..i], replies[..i])
      else if replies[i].Succeeded() then choices[i]
      else current
  }

  /** Handling one more choice after a run is handling it last. */
  lemma {:induction false} HandleAllSnoc<T>(b: Badge<T>, choices: seq<T>, replies: seq<Reply>, c: T, y: Reply)
    requires |choices| == |replies|
    ensures HandleAll(b, choices + [c], replies + [y]) == Handle(HandleAll(b, choices, replies), c, y)
    decreases |choices|
  {
    if choices == [] {
      assert choices + [c] == [c] && replies + [y] == [y];
    } else {
      assert (choices + [c])[1..] == choices[1..] + [c];
      assert (replies + [y])[1..] == replies[1..] + [y];
      HandleAllSnoc(Handle(b, choices[0], replies[0]), choices[1..], replies[1..], c, y);
    }
  }

  /** After any run of handled choices the badge shows exactly the value
      `LastEffective` reads off the run, and its prop is untouched. */
  lemma {:induction false} HandleAllShowsLastEffective<T>(b: Badge<T>, choices: seq<T>, replies: seq<Reply>)
    requires |choices| == |replies|
    ensures HandleAll(b, choices, replies).current == b.current
    ensures HandleAll(b, choices, replies).optimistic == LastEffective(b.current, b.optimistic, choices, replies)
    decreases |choices|
  {
    if choices != [] {
      var i := |choices| - 1;
      HandleAllShowsLastEffective(b, choices[..i], replies[..i]);
      assert choices == choices[..i] + [choices[i]];
      assert replies == replies[..i] + [replies[i]];
      HandleAllSnoc(b, choices[..i], replies[..i], choices[i], replies[i]);
    }
  }
}
