/** Which coroutines a step of a connection leaves suspended, and on which submissions. */
module Suspensions {
  import opened Wire
  import opened Totals
  import opened Connection

  /** From `c`, with the coroutine waiting on `op` resumed, to `r`: exactly the operations in
      `r.out` have been submitted, each by a coroutine that was not suspended on anything. */
  ghost predicate Rearmed(c: Conn, op: Op, r: Conn) {
    && Distinct(r.out)
    && (forall x :: x in r.out ==> !Waits(c, x) || x == op)
    && (forall x :: Waits(r, x) <==> (x in r.out || (Waits(c, x) && x != op)))
  }

  lemma SubmitOne(c: Conn, op: Op, r: Conn, s: Conn, x: Op)
    requires Rearmed(c, op, r) && !Waits(r, x) && s.out == r.out + [x]
    requires forall y :: Waits(s, y) <==> (Waits(r, y) || y == x)
    ensures Rearmed(c, op, s)
  {}

  lemma PushSubmits(c: Conn, op: Op, r: Conn, o: Outbox)
    requires Rearmed(c, op, r) && OutboxInv(r.outb)
    requires (exists f :: o == Push(r.outb, f)) || o == Close(r.outb)
    ensures Rearmed(c, op, SetOutbox(r, o))
  {
    if o.writes > r.outb.writes { SubmitOne(c, op, r, SetOutbox(r, o), WriteOp); }
  }

  lemma HandleSubmits(cfg: Config, c: Conn, op: Op, r: Conn, m: Message)
    requires Rearmed(c, op, r) && OutboxInv(r.outb) && HandlersInv(cfg, r)
    ensures Rearmed(c, op, Handle(cfg, r, m))
  {
    hide Frame;
    var i := |r.inb.delivered|;
    var r1 := r.(inb := r.inb.(delivered := r.inb.delivered + [m]));
    assert i !in r.sleeping;
    assert Rearmed(c, op, r1);
    if Response(cfg, m).Some? {
      var a := Response(cfg, m).value;
      if cfg.async {
        SubmitOne(c, op, r1, Handle(cfg, r, m), SleepOp(i));
      } else {
        assert r1.sleeping - {i} == r1.sleeping;
        var r2 := r1.(finished := r1.finished + [i]);
        PushSubmits(c, op, r2, Push(r2.outb, Frame(a)));
      }
    }
  }

  lemma {:induction false} HandleAllSubmits(cfg: Config, c: Conn, op: Op, r: Conn, ms: seq<Message>)
    requires Rearmed(c, op, r) && OutboxInv(r.outb) && HandlersInv(cfg, r)
    ensures Rearmed(c, op, HandleAll(cfg, r, ms))
    decreases |ms|
  {
    hide Rearmed;
    hide HandlersInv;
    hide OutboxInv;
    hide Handle;
    if ms != [] {
      HandleKeeps(cfg, r, ms[0]);
      HandleSubmits(cfg, c, op, r, ms[0]);
      HandleAllSubmits(cfg, c, op, Handle(cfg, r, ms[0]), ms[1..]);
    }
  }

  lemma GotBytesSubmits(cfg: Config, c: Conn, data: bytes)
    requires ConnInv(cfg, c) && c.reading && c.out == []
    ensures Rearmed(c, ReadOp, GotBytes(cfg, c, data))
  {
    hide InboxInv;
    hide WorkInv;
    hide OutboxInv;
    var i := Receive(c.inb, data);
    var c1 := c.(reading := false, inb := DrainInbox(i));
    var ms := Drain(i.unread).msgs;
    assert Rearmed(c, ReadOp, c1);
    HandleAllSubmits(cfg, c, ReadOp, c1, ms);
    HandleAllKeeps(cfg, c1, ms);
    SubmitOne(c, ReadOp, HandleAll(cfg, c1, ms), GotBytes(cfg, c, data), ReadOp);
  }

  /** Over any step: the resumed coroutine no longer waits where it did; every operation it or a
      coroutine it woke submits belongs to a coroutine now suspended on it; nobody else moves. */
  lemma NextSubmits(cfg: Config, c: Conn, e: Event)
    requires ConnInv(cfg, c) && Enabled(c, e) && c.out == []
    ensures Rearmed(c, OpOf(e), Next(cfg, c, e))
  {
    hide InboxInv;
    hide WorkInv;
    match e
    case ReadDone(data) => GotBytesSubmits(cfg, c, data);
    case ReadEnded =>
      PushSubmits(c, ReadOp, c.(reading := false), Close(c.outb));
    case WriteDone(w) =>
      var o := Written(c.outb, w);
      assert o.writes > c.outb.writes <==> o.writer.Writing?;
    case SleepDone(i) =>
      var c1 := c.(finished := c.finished + [i], sleeping := c.sleeping - {i});
      PushSubmits(c, SleepOp(i), c1, Push(c.outb, Frame(c.sleeping[i])));
  }
}
