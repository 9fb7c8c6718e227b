/** The response queue and the write loop as the objects they are, each operation proved to do to
    the connection what `Connection` says. Push and Close resume the waiting coroutine as their
    last act, so they hand its handle to the caller to run on. */
module ResponseQueues {
  import opened Wire
  import opened Connection

  class ResponseQueue<H> {
    var items: seq<bytes>
    var waiter: Option<H>
    var closed: bool

    constructor ()
      ensures items == [] && waiter == None && !closed
    {
      items, waiter, closed := [], None, false;
    }

    method AwaitReady() returns (ready: bool)
      ensures ready <==> items != [] || closed
    {
      ready := items != [] || closed;
    }

    method AwaitSuspend(h: H)
      modifies this`waiter
      ensures waiter == Some(h)
    {
      waiter := Some(h);
    }

    method AwaitResume() returns (item: Option<bytes>)
      modifies this`items
      ensures item.None? <==> old(items) == []
      ensures item.Some? ==> [item.value] + items == old(items)
      ensures item.None? ==> items == []
    {
      if items == [] { return None; }
      item := Some(items[0]);
      items := items[1..];
    }

    method Push(data: bytes) returns (wake: Option<H>)
      modifies this`items, this`waiter
      ensures items == old(items) + [data] && waiter == None && wake == old(waiter)
    {
      items := items + [data];
      wake := waiter;
      waiter := None;
    }

    method Close() returns (wake: Option<H>)
      modifies this`closed, this`waiter
      ensures closed && waiter == None && wake == old(waiter)
    {
      closed := true;
      wake := waiter;
      waiter := None;
    }
  }

  /** writeLoop and the Write inside it, as the continuation of each of their suspensions. */
  class WriteLoop<H> {
    const queue: ResponseQueue<H>
    const handle: H
    var writer: Writer
    var writes: nat
    ghost var pushed: seq<bytes>
    ghost var popped: seq<bytes>
    ghost var pushedAtClose: nat
    ghost var wire: bytes

    ghost function View(): Outbox
      reads this, queue
    {
      Outbox(queue.items, queue.waiter.Some?, queue.closed, writer, writes, pushed, popped, pushedAtClose, wire)
    }

    /** The coroutine starts at once and suspends in its first Pop. */
    constructor (q: ResponseQueue<H>, h: H)
      requires q.items == [] && q.waiter == None && !q.closed
      modifies q
      ensures queue == q && handle == h && View() == Fresh(None, None).outb && q.waiter == Some(h)
    {
      queue, handle := q, h;
      writer, writes := AtPop, 0;
      pushed, popped, pushedAtClose, wire := [], [], 0, [];
      new;
      q.AwaitSuspend(h);
    }

    method TakeItem()
      modifies this, queue`items
      ensures View() == Connection.TakeItem(old(View()))
    {
      var item := queue.AwaitResume();
      if item.None? { writer := Exited(true); return; }
      var frame := item.value;
      popped := popped + [frame];
      if frame == [] {
        writer := Exited(false);
      } else {
        writer := Writing(frame, 0);
        writes := writes + 1;
      }
    }

    method AwaitItem()
      modifies this, queue`items, queue`waiter
      ensures View() == Connection.AwaitItem(old(View()))
    {
      var ready := queue.AwaitReady();
      if ready {
        TakeItem();
      } else {
        queue.AwaitSuspend(handle);
        writer := AtPop;
      }
    }

    /** A handler pushes; if this loop waits in Pop it runs on, inside the handler's stack. */
    method OnPush(frame: bytes)
      modifies this, queue
      ensures View() == Connection.Push(old(View()), frame)
    {
      var wake := queue.Push(frame);
      pushed := pushed + [frame];
      if wake.Some? { TakeItem(); }
    }

    method OnClose()
      modifies this, queue
      ensures View() == Connection.Close(old(View()))
    {
      var wake := queue.Close();
      pushedAtClose := |pushed|;
      if wake.Some? { TakeItem(); }
    }

    /** One write completes with `w`. */
    method OnWritten(w: int)
      requires writer.Writing? && w <= |writer.frame| - writer.sent
      modifies this, queue
      ensures View() == Connection.Written(old(View()), w)
      ensures writer == Exited(true) ==> queue.closed && queue.items == []
    {
      var frame, sent := writer.frame, writer.sent;
      if w <= 0 { writer := Exited(false); return; }
      wire := wire + frame[sent..sent + w];
      if sent + w < |frame| {
        writer := Writing(frame, sent + w);
        writes := writes + 1;
        return;
      }
      if CastToInt(|frame|) <= 0 { writer := Exited(false); return; }
      AwaitItem();
    }
  }
}
