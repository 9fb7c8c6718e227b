/** The awaitable task that Write is: it runs at once, and whoever awaits it goes on exactly once
    with the value it returned, whether it finished before the await or later. */
module Tasks {
  import opened Wire

  class TaskT<T(0), H> {
    var done: bool
    var value: T
    var continuation: Option<H>

    constructor (initial: T)
      ensures !done && continuation == None
    {
      done, value, continuation := false, initial, None;
    }

    /** await_ready, then await_suspend if it said no: true if the awaiter goes on at once. */
    method Await(h: H) returns (ready: bool)
      modifies this`continuation
      ensures ready <==> done
      ensures continuation == if done then old(continuation) else Some(h)
    {
      ready := done;
      if !ready { continuation := Some(h); }
    }

    /** co_return: store the value and transfer control to the continuation, if any. */
    method Return(v: T) returns (next: Option<H>)
      requires !done
      modifies this
      ensures done && value == v && continuation == old(continuation) && next == continuation
    {
      value, done := v, true;
      next := continuation;
    }
  }

  /** The two orders a single thread allows, for a task that returns `v` to awaiter `h`: the
      number of times the awaiter is let go on, and the value it then reads. */
  method AwaitOnce<T(0), H>(v: T, initial: T, h: H, finishesFirst: bool) returns (goesOn: int, seen: T)
    ensures goesOn == 1 && seen == v
  {
    var task := new TaskT<T, H>(initial);
    goesOn := 0;
    var next: Option<H> := None;
    if finishesFirst { next := task.Return(v); }
    if next.Some? { goesOn := goesOn + 1; }
    var ready := task.Await(h);
    if ready { goesOn := goesOn + 1; }
    if !finishesFirst {
      next := task.Return(v);
      if next.Some? { goesOn := goesOn + 1; }
    }
    seen := task.value;
  }
}
