/** The per-worker task queue of the pool: a double-ended sequence of tasks.
    The owner consumes from the front, thieves from the back. The mutex that
    guards each operation in the source is not modelled: every method here is
    one atomic step. */
module TaskQueue {

  /** A unit of work, identified by an opaque id. */
  type Task = int

  /** The value of a default-constructed (empty) unit of work, which a
      consumer holds before a pop or a steal has handed it anything. */
  const NoWork: Task := -1

  class Queue {
    /** The contents of the deque, front first. */
    var items: seq<Task>

    constructor ()
      ensures items == []
    {
      items := [];
    }

    /** Appends `e` at the back. */
    method Push(e: Task)
      modifies this
      ensures items == old(items) + [e]
    {
      items := items + [e];
    }

    /** Owner-side consume: removes the front (oldest) task. `e` is the value the
        caller's variable holds before the call; it is handed back unchanged when
        the queue is empty. */
    method Pop(e: Task) returns (ok: bool, e': Task)
      modifies this
      ensures ok <==> old(items) != []
      ensures ok ==> e' == old(items)[0] && items == old(items)[1..]
      ensures !ok ==> e' == e && items == old(items)
    {
      if items == [] {
        return false, e;
      }
      e' := items[0];
      items := items[1..];
      ok := true;
    }

    /** Thief-side consume: removes the back (newest) task, or reports failure
        and leaves everything unchanged when the queue is empty. */
    method Steal(e: Task) returns (ok: bool, e': Task)
      modifies this
      ensures ok <==> old(items) != []
      ensures ok ==> e' == old(items)[|old(items)| - 1] && items == old(items)[..|old(items)| - 1]
      ensures !ok ==> e' == e && items == old(items)
    {
      if items == [] {
        return false, e;
      }
      e' := items[|items| - 1];
      items := items[..|items| - 1];
      ok := true;
    }
  }

  /** `s` read from back to front. */
  function Reversed(s: seq<Task>): (r: seq<Task>)
    ensures |r| == |s|
  {
    if s == [] then [] else [s[|s| - 1]] + Reversed(s[..|s| - 1])
  }

  /** The owner's view when nobody steals: pushing `xs` and then popping until
      the queue reports empty yields the earlier contents followed by `xs`,
      in push order. */
  method PushAllThenPopAll(q: Queue, xs: seq<Task>) returns (ys: seq<Task>)
    modifies q
    ensures ys == old(q.items) + xs
    ensures q.items == []
  {
    for i := 0 to |xs|
      invariant q.items == old(q.items) + xs[..i]
    {
      q.Push(xs[i]);
    }
    assert xs[..|xs|] == xs;
    ghost var all := q.items;
    ys := [];
    while true
      invariant ys + q.items == all
      decreases |q.items|
    {
      var ok, e := q.Pop(NoWork);
      if !ok {
        break;
      }
      ys := ys + [e];
    }
  }

  /** The thieves' view: pushing `xs` and then stealing until the queue reports
      empty yields the earlier contents followed by `xs` in reverse order. */
  method PushAllThenStealAll(q: Queue, xs: seq<Task>) returns (ys: seq<Task>)
    modifies q
    ensures Reversed(ys) == old(q.items) + xs
    ensures q.items == []
  {
    for i := 0 to |xs|
      invariant q.items == old(q.items) + xs[..i]
    {
      q.Push(xs[i]);
    }
    assert xs[..|xs|] == xs;
    ghost var all := q.items;
    ys := [];
    while true
      invariant q.items + Reversed(ys) == all
      decreases |q.items|
    {
      ghost var before := q.items;
      var ok, e := q.Steal(NoWork);
      if !ok {
        break;
      }
      assert (ys + [e])[..|ys|] == ys;
      assert Reversed(ys + [e]) == [e] + Reversed(ys);
      assert before == q.items + [e];
      ys := ys + [e];
    }
  }
}
