/** What the peer gets back, over every run of one connection. */
module EchoServer {
  import opened Wire
  import opened Totals
  import opened Connection
  import opened ConnectionRuns
  import opened StreamDelivery

  // ---------- what the peer is owed ----------

  /** A frame gets an answer if it is a request and its payload decodes. */
  predicate Served(cfg: Config, m: Message) {
    m.header.msgType == 0 && cfg.serve(m.payload).Some?
  }

  /** The answer: a response with the version and sequence number of its request. */
  function Reply(cfg: Config, m: Message): Message
    requires Served(cfg, m)
  {
    var p := cfg.serve(m.payload).value;
    Message(Header(MAGIC, m.header.version, 1, m.header.seqId, |p| % TWO_32), p)
  }

  function Requests(cfg: Config, ms: seq<Message>): seq<Message> {
    if ms == [] then [] else
    Requests(cfg, ms[..|ms| - 1]) + if Served(cfg, ms[|ms| - 1]) then [ms[|ms| - 1]] else []
  }

  function Replies(cfg: Config, ms: seq<Message>): seq<Message> {
    if ms == [] then [] else
    Replies(cfg, ms[..|ms| - 1]) + if Served(cfg, ms[|ms| - 1]) then [Reply(cfg, ms[|ms| - 1])] else []
  }

  /** One reply per request, in order, and none for other frames. */
  lemma {:induction false} OneReplyEach(cfg: Config, ms: seq<Message>)
    ensures var rs, qs := Replies(cfg, ms), Requests(cfg, ms);
      && |rs| == |qs|
      && (forall i :: 0 <= i < |qs| ==> qs[i] in ms && Served(cfg, qs[i]))
      && (forall i :: 0 <= i < |qs| ==> Served(cfg, qs[i]) && rs[i] == Reply(cfg, qs[i]))
  {
    if ms != [] {
      OneReplyEach(cfg, ms[..|ms| - 1]);
      assert forall m :: m in ms[..|ms| - 1] ==> m in ms;
    }
  }

  /** The handlers answer exactly what is owed. */
  lemma ResponseIsReply(cfg: Config, m: Message)
    ensures Response(cfg, m) == if Served(cfg, m) then Some(Reply(cfg, m)) else None
  {}

  lemma {:induction false} ResponsesAreReplies(cfg: Config, ms: seq<Message>)
    ensures Responses(cfg, ms) == Replies(cfg, ms)
  {
    hide Response;
    hide Served;
    hide Reply;
    if ms != [] {
      ResponsesAreReplies(cfg, ms[..|ms| - 1]);
      ResponseIsReply(cfg, ms[|ms| - 1]);
    }
  }

  // ---------- when the writer gives up ----------

  /** Write reports a frame of this length as a positive int. */
  predicate Reportable(len: nat) {
    0 < len % TWO_32 < 0x8000_0000
  }

  ghost predicate FramesReportable(fs: seq<bytes>) {
    forall k :: 0 <= k < |fs| ==> Reportable(|fs[k]|)
  }

  ghost predicate NoWriteFailed(es: seq<Event>) {
    forall k :: 0 <= k < |es| && es[k].WriteDone? ==> es[k].result > 0
  }

  /** A write that failed, or that completed a frame whose length is no positive int. */
  predicate GivesUp(o: Outbox, e: Event) {
    && e.WriteDone?
    && (e.result <= 0 ||
        (o.writer.Writing? && o.writer.sent + e.result == |o.writer.frame| && !Reportable(|o.writer.frame|)))
  }

  lemma PushGoesOn(o: Outbox, f: bytes)
    requires OutboxInv(o) && f != []
    ensures Push(o, f).writer == Exited(false) <==> o.writer == Exited(false)
    ensures o.pushed <= Push(o, f).pushed
  {
    hide Concat;
  }

  lemma {:induction false} HandleAllGoesOn(cfg: Config, c: Conn, ms: seq<Message>)
    requires OutboxInv(c.outb) && HandlersInv(cfg, c)
    ensures HandleAll(cfg, c, ms).outb.writer == Exited(false) <==> c.outb.writer == Exited(false)
    ensures c.outb.pushed <= HandleAll(cfg, c, ms).outb.pushed
    decreases |ms|
  {
    hide HandlersInv;
    hide OutboxInv;
    hide Frame;
    hide Push;
    if ms != [] {
      HandleKeeps(cfg, c, ms[0]);
      var r := Response(cfg, ms[0]);
      if r.Some? { PushGoesOn(c.outb, Frame(r.value)); }
      HandleAllGoesOn(cfg, Handle(cfg, c, ms[0]), ms[1..]);
    }
  }

  lemma GivesUpStep(cfg: Config, c: Conn, e: Event)
    requires ConnInv(cfg, c) && Enabled(c, e)
    ensures Next(cfg, c, e).outb.writer == Exited(false) <==> c.outb.writer == Exited(false) || GivesUp(c.outb, e)
    ensures c.outb.pushed <= Next(cfg, c, e).outb.pushed
  {
    hide InboxInv;
    hide WorkInv;
    hide Frames;
    hide Responses;
    hide Concat;
    hide Frame;
    match e
    case ReadDone(data) =>
      var i := Receive(c.inb, data);
      HandleAllGoesOn(cfg, c.(reading := false, inb := DrainInbox(i)), Drain(i.unread).msgs);
    case ReadEnded =>
    case WriteDone(w) => QueuedAreFrames(cfg, c);
    case SleepDone(i) => PushGoesOn(c.outb, Frame(c.sleeping[i]));
  }

  lemma QueuedAreFrames(cfg: Config, c: Conn)
    requires ConnInv(cfg, c)
    ensures forall k :: 0 <= k < |c.outb.items| ==> |c.outb.items[k]| >= HEADER_SIZE
  {
    hide InboxInv;
    hide Frame;
    hide Concat;
    var o := c.outb;
    forall k | 0 <= k < |o.items| ensures |o.items[k]| >= HEADER_SIZE {
      assert o.items[k] == o.pushed[|o.popped| + k];
      assert IsWork(cfg, c.inb.delivered, c.finished[|o.popped| + k]);
    }
  }

  /** The `k`-th event of the run is such a write. */
  ghost predicate GivesUpAt(cfg: Config, c: Conn, es: seq<Event>, k: nat)
    requires k < |es|
  {
    IsRun(cfg, c, es[..k]) && GivesUp(End(cfg, c, es[..k]).outb, es[k])
  }

  /** Over whole runs: the writer has stopped answering if and only if some write failed, or some
      write completed a frame whose length Write reports as a non-positive int. */
  lemma {:induction false} WriterGivesUpIff(cfg: Config, rcap: Option<nat>, wcap: Option<nat>, es: seq<Event>)
    requires IsRun(cfg, Start(rcap, wcap), es)
    ensures End(cfg, Start(rcap, wcap), es).outb.writer == Exited(false) <==>
      exists k :: 0 <= k < |es| && GivesUpAt(cfg, Start(rcap, wcap), es, k)
    decreases |es|
  {
    hide ConnInv;
    hide Next;
    hide Enabled;
    hide GivesUp;
    if es != [] {
      var c := Start(rcap, wcap);
      var init, e := es[..|es| - 1], es[|es| - 1];
      WriterGivesUpIff(cfg, rcap, wcap, init);
      RunInv(cfg, rcap, wcap, init);
      GivesUpStep(cfg, End(cfg, c, init), e);
      forall k | 0 <= k < |init| ensures GivesUpAt(cfg, c, init, k) <==> GivesUpAt(cfg, c, es, k) {
        assert init[..k] == es[..k];
      }
      assert GivesUpAt(cfg, c, es, |es| - 1) <==> GivesUp(End(cfg, c, init).outb, e);
    }
  }

  /** So while no write fails and every frame's length is a positive int, it goes on. */
  lemma {:induction false} WriterGoesOn(cfg: Config, rcap: Option<nat>, wcap: Option<nat>, es: seq<Event>)
    requires IsRun(cfg, Start(rcap, wcap), es) && NoWriteFailed(es)
    requires FramesReportable(End(cfg, Start(rcap, wcap), es).outb.pushed)
    ensures End(cfg, Start(rcap, wcap), es).outb.writer != Exited(false)
    decreases |es|
  {
    hide ConnInv;
    hide Next;
    hide Enabled;
    hide Reportable;
    if es != [] {
      var init, e := es[..|es| - 1], es[|es| - 1];
      RunInv(cfg, rcap, wcap, init);
      var c := End(cfg, Start(rcap, wcap), init);
      GivesUpStep(cfg, c, e);
      FrameInHand(cfg, c);
      WriterGoesOn(cfg, rcap, wcap, init);
    }
  }

  lemma FrameInHand(cfg: Config, c: Conn)
    requires ConnInv(cfg, c)
    ensures c.outb.writer.Writing? ==> c.outb.writer.frame in c.outb.pushed
  {
    hide InboxInv;
    hide HandlersInv;
    hide Concat;
  }

  /** A caller can tell from the service alone: without failed writes no connection ever stops
      answering if and only if no well-formed request has a reply of the wrong size. */
  lemma ServiceNeverSilencedIff(cfg: Config)
    ensures (forall rcap, wcap, es :: IsRun(cfg, Start(rcap, wcap), es) && NoWriteFailed(es) ==>
               End(cfg, Start(rcap, wcap), es).outb.writer != Exited(false))
      <==> (forall m :: WellFormed(m) && Served(cfg, m) ==> Reportable(Size(Reply(cfg, m))))
  {
    hide IsRun;
    hide End;
    hide WellFormed;
    hide Served;
    hide Reply;
    hide Reportable;
    hide ConnInv;
    if forall m :: WellFormed(m) && Served(cfg, m) ==> Reportable(Size(Reply(cfg, m))) {
      forall rcap, wcap, es | IsRun(cfg, Start(rcap, wcap), es) && NoWriteFailed(es)
        ensures End(cfg, Start(rcap, wcap), es).outb.writer != Exited(false)
      {
        RunInv(cfg, rcap, wcap, es);
        PushedAreReplies(cfg, End(cfg, Start(rcap, wcap), es));
        WriterGoesOn(cfg, rcap, wcap, es);
      }
    } else {
      var m :| WellFormed(m) && Served(cfg, m) && !Reportable(Size(Reply(cfg, m)));
      var es := OversizedResponse(cfg, None, None, m);
    }
  }

  /** Some well-formed request has a reply frame of this length. */
  ghost predicate ReplyLength(cfg: Config, len: nat) {
    exists m :: WellFormed(m) && Served(cfg, m) && Size(Reply(cfg, m)) == len
  }

  lemma PushedAreReplies(cfg: Config, c: Conn)
    requires ConnInv(cfg, c)
    ensures forall k :: 0 <= k < |c.outb.pushed| ==> ReplyLength(cfg, |c.outb.pushed[k]|)
  {
    hide Scan;
    hide WellFormed;
    hide Response;
    hide Served;
    hide Reply;
    hide Frame;
    hide OutboxInv;
    ScannedWellFormed(c.inb.received);
    forall k | 0 <= k < |c.outb.pushed| ensures ReplyLength(cfg, |c.outb.pushed[k]|) {
      assert IsWork(cfg, c.inb.delivered, c.finished[k]);
      var m := c.inb.delivered[c.finished[k]];
      assert m in Scan(c.inb.received).msgs;
      ResponseIsReply(cfg, m);
    }
  }

  lemma {:induction false} ScannedWellFormed(b: bytes)
    ensures AllWellFormed(Scan(b).msgs)
    decreases |b|
  {
    hide Parse;
    hide WellFormed;
    match Parse(b)
    case NeedMore =>
    case BadMagic => ScannedWellFormed(b[1..]);
    case Parsed(m) =>
      ParsedIsFrame(b);
      ScannedWellFormed(b[Size(m)..]);
  }

  // ---------- a response of the wrong size ----------

  /** For every such response there is a run in which the request is read and the response taken by
      the kernel byte by byte, each time with success; the peer has all of it, and the writer stops. */
  lemma OversizedResponse(cfg: Config, rcap: Option<nat>, wcap: Option<nat>, m: Message) returns (es: seq<Event>)
    requires WellFormed(m) && (rcap.Some? ==> Size(m) <= rcap.value) && (wcap.Some? ==> wcap.value >= 1)
    requires Served(cfg, m) && !Reportable(Size(Reply(cfg, m)))
    ensures IsRun(cfg, Start(rcap, wcap), es) && BytesIn(es) == Frame(m) && NoWriteFailed(es) && SingleBytes(es)
    ensures var o := End(cfg, Start(rcap, wcap), es).outb;
      o.writer == Exited(false) && o.wire == Frame(Reply(cfg, m))
  {
    hide Next;
    hide Enabled;
    hide ConnInv;
    hide IsRun;
    hide End;
    hide BytesIn;
    hide Frame;
    hide Response;
    hide Served;
    hide Reply;
    hide Reportable;
    ResponseIsReply(cfg, m);
    es := RequestToWriter(cfg, rcap, wcap, m);
    var f := Frame(Reply(cfg, m));
    var start := Start(rcap, wcap);
    var k := 0;
    while k < |f|
      invariant k <= |f|
      invariant IsRun(cfg, start, es) && BytesIn(es) == Frame(m) && NoWriteFailed(es) && SingleBytes(es)
      invariant var c := End(cfg, start, es);
        && c.wcap == wcap && c.outb.wire == f[..k]
        && c.outb.writer == if k < |f| then Writing(f, k) else Exited(false)
    {
      var c := End(cfg, start, es);
      RunInv(cfg, rcap, wcap, es);
      SendByte(cfg, c);
      RunStep(cfg, start, es, WriteDone(1));
      assert f[..k] + [f[k]] == f[..k + 1];
      es, k := es + [WriteDone(1)], k + 1;
    }
    assert f[..k] == f;
  }

  lemma SendByte(cfg: Config, c: Conn)
    requires ConnInv(cfg, c) && c.outb.writer.Writing? && !Reportable(|c.outb.writer.frame|)
    requires c.wcap.Some? ==> c.wcap.value >= 1
    ensures Enabled(c, WriteDone(1))
    ensures var f, k, c1 := c.outb.writer.frame, c.outb.writer.sent, Next(cfg, c, WriteDone(1));
      && k < |f| && c1.wcap == c.wcap && c1.outb.wire == c.outb.wire + [f[k]]
      && c1.outb.writer == if k + 1 < |f| then Writing(f, k + 1) else Exited(false)
  {
    hide InboxInv;
    hide HandlersInv;
    hide Concat;
    var f, k := c.outb.writer.frame, c.outb.writer.sent;
    assert f[k..k + 1] == [f[k]];
  }

  /** The request arrives byte by byte, its handler wakes, and the writer holds its response. */
  lemma RequestToWriter(cfg: Config, rcap: Option<nat>, wcap: Option<nat>, m: Message) returns (es: seq<Event>)
    requires WellFormed(m) && (rcap.Some? ==> Size(m) <= rcap.value) && Response(cfg, m).Some?
    ensures IsRun(cfg, Start(rcap, wcap), es) && BytesIn(es) == Frame(m) && NoWriteFailed(es) && SingleBytes(es)
    ensures var c := End(cfg, Start(rcap, wcap), es);
      c.wcap == wcap && c.outb.wire == [] && c.outb.writer == Writing(Frame(Response(cfg, m).value), 0)
  {
    hide IsRun;
    hide End;
    hide BytesIn;
    hide GotBytes;
    hide Frame;
    hide WellFormed;
    hide Response;
    var start, f := Start(rcap, wcap), Frame(m);
    EmptyRun(cfg, start);
    es := [];
    var k := 0;
    while k < |f| - 1
      invariant k < |f| && IsRun(cfg, start, es) && BytesIn(es) == f[..k] && NoWriteFailed(es) && SingleBytes(es)
      invariant HasRead(End(cfg, start, es), start, f[..k])
    {
      PartRead(cfg, End(cfg, start, es), start, m, k);
      RunStep(cfg, start, es, ReadDone([f[k]]));
      assert f[..k] + [f[k]] == f[..k + 1];
      es, k := es + [ReadDone([f[k]])], k + 1;
    }
    RequestRead(cfg, End(cfg, start, es), m);
    RunStep(cfg, start, es, ReadDone([f[k]]));
    assert f[..k] + [f[k]] == f;
    es := es + [ReadDone([f[k]])];
    if cfg.async {
      RunStep(cfg, start, es, SleepDone(0));
      es := es + [SleepDone(0)];
    }
  }

  /** `c` is `start` with `b` in its read buffer and nothing else changed that matters below. */
  ghost predicate HasRead(c: Conn, start: Conn, b: bytes) {
    && c.inb.unread == b && c.inb.cap == start.inb.cap && c.inb.delivered == start.inb.delivered
    && c.outb == start.outb && c.wcap == start.wcap && c.reading
  }

  lemma PartRead(cfg: Config, c: Conn, start: Conn, m: Message, k: nat)
    requires WellFormed(m) && k + 1 < Size(m) && HasRead(c, start, Frame(m)[..k])
    ensures var x := [Frame(m)[k]]; HasRead(GotBytes(cfg, c, x), start, Frame(m)[..k + 1])
  {
    hide Frame;
    hide WellFormed;
    hide Parse;
    assert Frame(m)[..k] + [Frame(m)[k]] == Frame(m)[..k + 1];
    PrefixNeedsMore(m, Frame(m)[..k + 1]);
  }

  lemma RequestRead(cfg: Config, c: Conn, m: Message)
    requires WellFormed(m) && c.inb.unread == Frame(m)[..Size(m) - 1] && c.inb.delivered == []
    requires c.outb.items == [] && c.outb.waiting && Response(cfg, m).Some?
    ensures var r, c1 := Response(cfg, m).value, GotBytes(cfg, c, [Frame(m)[Size(m) - 1]]);
      && c1.wcap == c.wcap && c1.outb.wire == c.outb.wire
      && (if cfg.async then c1.outb == c.outb && 0 in c1.sleeping && c1.sleeping[0] == r
          else c1.outb.writer == Writing(Frame(r), 0))
  {
    hide Drain;
    hide Frame;
    hide WellFormed;
    hide Response;
    DrainFrame(m, []);
    DrainNothing();
    var x := [Frame(m)[Size(m) - 1]];
    assert c.inb.unread + x == Frame(m) + [] == Frame(m);
    assert [m] + [] == [m] && [m][1..] == [];
    var d := c.(reading := false, inb := DrainInbox(Receive(c.inb, x)));
    assert DrainAll(cfg, c.(reading := false, inb := Receive(c.inb, x))) == HandleAll(cfg, d, [m]);
    assert HandleAll(cfg, d, [m]) == Handle(cfg, d, m);
  }

  lemma DrainNothing()
    ensures Drain([]) == Scanned([], 0, [])
  {}

  // ---------- the synchronous server, end to end ----------

  lemma {:induction false} ConcatFrames(ms: seq<Message>)
    ensures Concat(Frames(ms)) == Stream(ms)
  {
    if ms != [] {
      var init, m := ms[..|ms| - 1], ms[|ms| - 1];
      ConcatFrames(init);
      assert ms == init + [m];
      assert Frames(ms) == Frames(init) + [Frame(m)];
      ConcatPush(Frames(init), Frame(m));
      StreamAppend(init, [m]);
      StreamOne(m);
    }
  }

  lemma {:induction false} ConcatPrefix(a: seq<bytes>, b: seq<bytes>)
    ensures Concat(a) <= Concat(a + b)
    decreases |b|
  {
    if b == [] {
      assert a + b == a;
    } else {
      var init, f := b[..|b| - 1], b[|b| - 1];
      assert a + b == (a + init) + [f];
      ConcatPush(a + init, f);
      ConcatPrefix(a, init);
    }
  }

  lemma {:induction false} RepliesPrefix(cfg: Config, ms: seq<Message>, n: nat)
    requires n <= |ms|
    ensures Replies(cfg, ms[..n]) <= Replies(cfg, ms)
    decreases |ms|
  {
    if n == |ms| {
      assert ms[..n] == ms;
    } else {
      RepliesPrefix(cfg, ms[..|ms| - 1], n);
      assert ms[..|ms| - 1][..n] == ms[..n];
    }
  }

  lemma StreamPrefix(a: seq<Message>, b: seq<Message>)
    requires a <= b
    ensures Stream(a) <= Stream(b)
  {}

  /** The writer is in no write and has not given up. */
  predicate Flushed(o: Outbox) {
    !o.writer.Writing? && o.writer != Exited(false)
  }

  lemma WireOfPushed(o: Outbox)
    requires OutboxInv(o)
    ensures o.wire <= Concat(o.pushed)
    ensures Flushed(o) && (o.closed ==> o.pushedAtClose == |o.pushed|) ==> o.wire == Concat(o.pushed)
  {
    ConcatPrefix(o.popped, o.items);
    if o.writer.Writing? {
      var init, f, k := o.popped[..|o.popped| - 1], o.writer.frame, o.writer.sent;
      assert o.popped == init + [f];
      ConcatPush(init, f);
      WireGrows(Concat(init), f, k, 0);
    }
    hide Concat;
    if o.items == [] { assert o.popped + [] == o.popped; }
  }

  /** What the wire says of a synchronous connection in any state that keeps its invariant. */
  lemma SyncWire(cfg: Config, c: Conn, ms: seq<Message>)
    requires !cfg.async && ConnInv(cfg, c) && AllWellFormed(ms) && c.inb.received <= Stream(ms)
    ensures var n := Complete(ms, |c.inb.received|);
      && c.outb.pushed == Frames(Replies(cfg, ms[..n])) && Replies(cfg, ms[..n]) <= Replies(cfg, ms)
      && c.outb.wire <= Stream(Replies(cfg, ms))
      && (Flushed(c.outb) ==> c.outb.wire == Stream(Replies(cfg, ms[..n])))
  {
    hide InStep;
    hide NoByteLost;
    hide OutboxInv;
    hide WorkInv;
    hide Stream;
    hide Concat;
    WellFormedInbox(c.inb, ms);
    var n := Complete(ms, |c.inb.received|);
    WireOfPushed(c.outb);
    ResponsesAreReplies(cfg, ms[..n]);
    ConcatFrames(Replies(cfg, ms[..n]));
    RepliesPrefix(cfg, ms, n);
    StreamPrefix(Replies(cfg, ms[..n]), Replies(cfg, ms));
  }

  ghost predicate AllReportable(rs: seq<Message>) {
    forall i :: 0 <= i < |rs| ==> Reportable(Size(rs[i]))
  }

  /** For every well-formed request stream, every chunking and every pattern of partial or failed
      writes, the wire is a prefix of the encoded responses in request order. If no write failed and
      the responses have lengths that Write can report, nothing is held back: whenever no write is
      outstanding, the wire is the responses to all complete requests received so far. */
  lemma SyncServer(cfg: Config, rcap: Option<nat>, wcap: Option<nat>, es: seq<Event>, ms: seq<Message>)
    requires !cfg.async && IsRun(cfg, Start(rcap, wcap), es)
    requires AllWellFormed(ms) && BytesIn(es) <= Stream(ms)
    ensures var o := End(cfg, Start(rcap, wcap), es).outb; var n := Complete(ms, |BytesIn(es)|);
      && o.wire <= Stream(Replies(cfg, ms))
      && (NoWriteFailed(es) && AllReportable(Replies(cfg, ms)) && !o.writer.Writing? ==>
            && o.wire == Stream(Replies(cfg, ms[..n]))
            && (BytesIn(es) == Stream(ms) ==> o.wire == Stream(Replies(cfg, ms))))
  {
    hide ConnInv;
    hide IsRun;
    hide End;
    hide Reportable;
    hide Complete;
    hide Stream;
    hide Replies;
    hide Frame;
    RunInv(cfg, rcap, wcap, es);
    var c := End(cfg, Start(rcap, wcap), es);
    SyncWire(cfg, c, ms);
    if NoWriteFailed(es) && AllReportable(Replies(cfg, ms)) { WriterGoesOn(cfg, rcap, wcap, es); }
    CompleteAll(ms);
    assert ms[..|ms|] == ms;
  }

  /** The peer's own scanner, run on the wire, finds the responses in request order. */
  lemma SyncServerAnswers(cfg: Config, rcap: Option<nat>, wcap: Option<nat>, es: seq<Event>, ms: seq<Message>)
    requires !cfg.async && IsRun(cfg, Start(rcap, wcap), es)
    requires AllWellFormed(ms) && BytesIn(es) <= Stream(ms) && AllWellFormed(Replies(cfg, ms))
    ensures var wire := End(cfg, Start(rcap, wcap), es).outb.wire; var rs := Replies(cfg, ms);
      Scan(wire).skips == 0 && Scan(wire).msgs == rs[..Complete(rs, |wire|)]
  {
    SyncServer(cfg, rcap, wcap, es, ms);
    ScanStream(Replies(cfg, ms), End(cfg, Start(rcap, wcap), es).outb.wire);
  }

  /** Request to response and back, over any well-formed stream: once it has been consumed with no
      failed write and none outstanding, the peer's scanner finds exactly one message for each request
      that decodes, in order, and none for other frames; each has its request's sequence number and
      version and the payload the service gave. */
  lemma SyncRoundTrip(cfg: Config, rcap: Option<nat>, wcap: Option<nat>, es: seq<Event>, ms: seq<Message>)
    requires !cfg.async && IsRun(cfg, Start(rcap, wcap), es)
    requires AllWellFormed(ms) && BytesIn(es) == Stream(ms)
    requires NoWriteFailed(es) && !End(cfg, Start(rcap, wcap), es).outb.writer.Writing?
    requires forall m :: m in ms && Served(cfg, m) ==>
      var p := cfg.serve(m.payload).value; |p| < TWO_32 && Reportable(HEADER_SIZE + |p|)
    ensures var got := Scan(End(cfg, Start(rcap, wcap), es).outb.wire); var qs := Requests(cfg, ms);
      && got.skips == 0 && got.rest == [] && |got.msgs| == |qs|
      && forall i :: 0 <= i < |qs| ==>
           && got.msgs[i].header.seqId == qs[i].header.seqId && got.msgs[i].header.version == qs[i].header.version
           && got.msgs[i].header.msgType == 1 && Some(got.msgs[i].payload) == cfg.serve(qs[i].payload)
  {
    hide IsRun;
    hide End;
    hide Scan;
    hide Parse;
    hide Stream;
    hide Replies;
    hide Requests;
    hide BytesIn;
    SyncServer(cfg, rcap, wcap, es, ms);
    OneReplyEach(cfg, ms);
    ScanWhole(Replies(cfg, ms));
  }

  lemma ScanWhole(ms: seq<Message>)
    requires forall i :: 0 <= i < |ms| ==> WellFormed(ms[i])
    ensures Scan(Stream(ms)) == Scanned(ms, 0, [])
  {
    hide WellFormed;
    hide Scan;
    ScanStream(ms, Stream(ms));
    CompleteAll(ms);
    assert ms[..|ms|] == ms;
  }

  // ---------- the asynchronous server ----------

  /** Whatever the order in which handlers finish: the wire is a prefix of whole frames in push
      order; when no write failed or is outstanding, it has everything pushed while the writer was
      there, and all frames if none was pushed after Close. A request is asleep or finished, not both,
      exactly if it is of type 0 and decodes; a finished one pushed exactly one frame, its answer. */
  lemma AsyncServer(cfg: Config, rcap: Option<nat>, wcap: Option<nat>, es: seq<Event>)
    requires IsRun(cfg, Start(rcap, wcap), es)
    ensures var c := End(cfg, Start(rcap, wcap), es); var ms := c.inb.delivered;
      && c.outb.wire <= Concat(c.outb.pushed)
      && (NoWriteFailed(es) && FramesReportable(c.outb.pushed) && !c.outb.writer.Writing? ==>
            && ((c.outb.closed ==> c.outb.pushedAtClose == |c.outb.pushed|) ==> c.outb.wire == Concat(c.outb.pushed))
            && forall k :: 0 <= k <= |es| ==>
                 HadLeft(cfg, Start(rcap, wcap), es, k) || WrittenUpTo(cfg, Start(rcap, wcap), es, k))
      && |c.outb.pushed| == |c.finished| && Distinct(c.finished)
      && (forall i: nat :: i in c.finished || i in c.sleeping <==>
            i < |ms| && ms[i].header.msgType == 0 && cfg.serve(ms[i].payload).Some?)
      && (forall i :: i in c.sleeping ==> i !in c.finished)
      && (forall k :: 0 <= k < |c.finished| ==>
            c.finished[k] < |ms| && Answers(cfg, ms[c.finished[k]], c.outb.pushed[k]))
  {
    hide ConnInv;
    hide IsRun;
    hide End;
    hide Concat;
    hide Answers;
    RunInv(cfg, rcap, wcap, es);
    var c := End(cfg, Start(rcap, wcap), es);
    WireInState(cfg, c);
    WorkInState(cfg, c);
    if NoWriteFailed(es) && FramesReportable(c.outb.pushed) && !c.outb.writer.Writing? {
      WriterGoesOn(cfg, rcap, wcap, es);
      forall k | 0 <= k <= |es|
        ensures HadLeft(cfg, Start(rcap, wcap), es, k) || WrittenUpTo(cfg, Start(rcap, wcap), es, k)
      {
        PrefixRun(cfg, Start(rcap, wcap), es, k);
        if !HadLeft(cfg, Start(rcap, wcap), es, k) { PushedInTimeIsWritten(cfg, rcap, wcap, es, k); }
      }
    }
  }

  /** The requests whose timers fired, in that order. */
  function TimersFired(es: seq<Event>): seq<nat> {
    if es == [] then [] else
    TimersFired(es[..|es| - 1]) + if es[|es| - 1].SleepDone? then [es[|es| - 1].request] else []
  }

  /** The asynchronous server answers in the order in which timers fire, and never before. */
  lemma {:induction false} AnswersInTimerOrder(cfg: Config, rcap: Option<nat>, wcap: Option<nat>, es: seq<Event>)
    requires cfg.async && IsRun(cfg, Start(rcap, wcap), es)
    ensures End(cfg, Start(rcap, wcap), es).finished == TimersFired(es)
    decreases |es|
  {
    hide Next;
    hide Enabled;
    if es != [] {
      var init, e := es[..|es| - 1], es[|es| - 1];
      AnswersInTimerOrder(cfg, rcap, wcap, init);
      TimerStep(cfg, End(cfg, Start(rcap, wcap), init), e);
    }
  }

  lemma TimerStep(cfg: Config, c: Conn, e: Event)
    requires cfg.async && Enabled(c, e)
    ensures Next(cfg, c, e).finished == c.finished + if e.SleepDone? then [e.request] else []
  {
    hide Push;
    hide Written;
    hide Frame;
    if e.ReadDone? {
      var i := Receive(c.inb, e.data);
      HandleAllSleeps(cfg, c.(reading := false, inb := DrainInbox(i)), Drain(i.unread).msgs);
    }
  }

  lemma {:induction false} HandleAllSleeps(cfg: Config, c: Conn, ms: seq<Message>)
    requires cfg.async
    ensures HandleAll(cfg, c, ms).finished == c.finished
    decreases |ms|
  {
    if ms != [] { HandleAllSleeps(cfg, Handle(cfg, c, ms[0]), ms[1..]); }
  }

  /** The writer had left by the `k`-th event. */
  ghost predicate HadLeft(cfg: Config, c: Conn, es: seq<Event>, k: nat)
    requires k <= |es|
  {
    IsRun(cfg, c, es[..k]) && End(cfg, c, es[..k]).outb.writer.Exited?
  }

  lemma WireInState(cfg: Config, c: Conn)
    requires ConnInv(cfg, c)
    ensures c.outb.wire <= Concat(c.outb.pushed)
    ensures Flushed(c.outb) && (c.outb.closed ==> c.outb.pushedAtClose == |c.outb.pushed|) ==>
      c.outb.wire == Concat(c.outb.pushed)
  {
    hide OutboxInv;
    hide Concat;
    WireOfPushed(c.outb);
  }

  lemma WorkInState(cfg: Config, c: Conn)
    requires ConnInv(cfg, c)
    ensures var ms := c.inb.delivered;
      && |c.outb.pushed| == |c.finished| && Distinct(c.finished)
      && (forall i: nat :: i in c.finished || i in c.sleeping <==>
            i < |ms| && ms[i].header.msgType == 0 && cfg.serve(ms[i].payload).Some?)
      && (forall i :: i in c.sleeping ==> i !in c.finished)
      && (forall k :: 0 <= k < |c.finished| ==>
            c.finished[k] < |ms| && Answers(cfg, ms[c.finished[k]], c.outb.pushed[k]))
  {
    hide Frame;
    hide Answers;
    hide InboxInv;
    hide OutboxInv;
    var ms := c.inb.delivered;
    forall i: nat
      ensures i in c.finished || i in c.sleeping <==> i < |ms| && ms[i].header.msgType == 0 && cfg.serve(ms[i].payload).Some?
    {
      if i < |ms| { ResponseIsReply(cfg, ms[i]); }
      assert IsWork(cfg, ms, i) <==> (i in c.finished || i in c.sleeping);
    }
    forall k | 0 <= k < |c.finished| ensures c.finished[k] < |ms| && Answers(cfg, ms[c.finished[k]], c.outb.pushed[k]) {
      assert IsWork(cfg, ms, c.finished[k]);
      ResponseAnswers(cfg, ms[c.finished[k]]);
    }
  }

  /** Frame `f` is the response to `request`, as a receiver would read it: all of its payload, or as
      much as the 32-bit length field says. */
  ghost predicate Answers(cfg: Config, request: Message, f: bytes) {
    && cfg.serve(request.payload).Some?
    && var p := cfg.serve(request.payload).value;
    && |f| == HEADER_SIZE + |p| && f[HEADER_SIZE..] == p && Parse(f).Parsed?
    && var m := Parse(f).msg;
    && m.payload == p[..|p| % TWO_32] && m.header.msgType == 1
    && m.header.seqId == request.header.seqId && m.header.version == request.header.version
  }

  lemma ResponseAnswers(cfg: Config, request: Message)
    requires Response(cfg, request).Some?
    ensures Answers(cfg, request, Frame(Response(cfg, request).value))
  {
    var p := cfg.serve(request.payload).value;
    var h := request.header.(msgType := 1);
    RoundTrip(Normal(h, p), p, []);
    assert Frame(Response(cfg, request).value) + [] == Encode(Normal(h, p), p);
    if |p| < TWO_32 { assert p[..|p| % TWO_32] == p; }
  }

  /** The writer leaves through Pop only when the queue is closed and empty. */
  lemma LeavesEmptyQueue(cfg: Config, c: Conn, e: Event)
    requires ConnInv(cfg, c) && Enabled(c, e) && !c.outb.writer.Exited?
    ensures var o := Next(cfg, c, e).outb; o.writer == Exited(true) ==> o.closed && o.items == [] && o.popped == o.pushed
  {
    hide InboxInv;
    hide WorkInv;
    hide OutboxInv;
    hide Frame;
    NextKeeps(cfg, c, e);
    match e
    case ReadDone(data) =>
      var i := Receive(c.inb, data);
      HandleAllStays(cfg, c.(reading := false, inb := DrainInbox(i)), Drain(i.unread).msgs);
    case ReadEnded => CloseKeeps(c.outb); LeftQueue(Next(cfg, c, e).outb);
    case WriteDone(w) => WrittenKeeps(c.outb, w); LeftQueue(Next(cfg, c, e).outb);
    case SleepDone(i) => PushKeeps(c.outb, Frame(c.sleeping[i]));
  }

  lemma LeftQueue(o: Outbox)
    requires OutboxInv(o)
    ensures o.writer == Exited(true) && o.items == [] ==> o.closed && o.popped == o.pushed
  {
    hide Concat;
  }

  lemma {:induction false} HandleAllStays(cfg: Config, c: Conn, ms: seq<Message>)
    requires OutboxInv(c.outb) && HandlersInv(cfg, c)
    ensures HandleAll(cfg, c, ms).outb.writer == Exited(true) <==> c.outb.writer == Exited(true)
    decreases |ms|
  {
    hide HandlersInv;
    hide OutboxInv;
    hide Frame;
    hide Push;
    if ms != [] {
      HandleKeeps(cfg, c, ms[0]);
      var r := Response(cfg, ms[0]);
      if r.Some? { PushKeeps(c.outb, Frame(r.value)); }
      HandleAllStays(cfg, Handle(cfg, c, ms[0]), ms[1..]);
    }
  }

  /** What was pushed while the writer had not left is popped by the time it has left through Pop. */
  lemma {:induction false} PoppedBeforeExit(cfg: Config, rcap: Option<nat>, wcap: Option<nat>, es: seq<Event>, k: nat)
    requires IsRun(cfg, Start(rcap, wcap), es) && k <= |es| && IsRun(cfg, Start(rcap, wcap), es[..k])
    requires !End(cfg, Start(rcap, wcap), es[..k]).outb.writer.Exited?
    ensures var o, prior := End(cfg, Start(rcap, wcap), es).outb, End(cfg, Start(rcap, wcap), es[..k]).outb;
      prior.pushed <= o.pushed && (o.writer == Exited(true) ==> prior.pushed <= o.popped)
    decreases |es|
  {
    hide ConnInv;
    hide Next;
    hide Enabled;
    if k == |es| {
      assert es[..k] == es;
    } else {
      var c := Start(rcap, wcap);
      var init, e := es[..|es| - 1], es[|es| - 1];
      assert init[..k] == es[..k];
      PoppedBeforeExit(cfg, rcap, wcap, init, k);
      RunInv(cfg, rcap, wcap, init);
      var d := End(cfg, c, init);
      GivesUpStep(cfg, d, e);
      if d.outb.writer.Exited? { LateStep(cfg, d, e); } else { LeavesEmptyQueue(cfg, d, e); }
    }
  }

  /** At the end of `es`, everything pushed up to its `k`-th event is on the wire. */
  ghost predicate WrittenUpTo(cfg: Config, c: Conn, es: seq<Event>, k: nat)
    requires IsRun(cfg, c, es) && k <= |es|
  {
    IsRun(cfg, c, es[..k]) && Concat(End(cfg, c, es[..k]).outb.pushed) <= End(cfg, c, es).outb.wire
  }

  /** Every frame pushed while the writer was there reaches the wire, also one pushed after Close:
      it is all there once no write is outstanding, if none failed. */
  lemma PushedInTimeIsWritten(cfg: Config, rcap: Option<nat>, wcap: Option<nat>, es: seq<Event>, k: nat)
    requires IsRun(cfg, Start(rcap, wcap), es) && k <= |es| && IsRun(cfg, Start(rcap, wcap), es[..k])
    requires !End(cfg, Start(rcap, wcap), es[..k]).outb.writer.Exited?
    requires NoWriteFailed(es) && FramesReportable(End(cfg, Start(rcap, wcap), es).outb.pushed)
    requires !End(cfg, Start(rcap, wcap), es).outb.writer.Writing?
    ensures WrittenUpTo(cfg, Start(rcap, wcap), es, k)
  {
    hide ConnInv;
    hide IsRun;
    hide End;
    hide Concat;
    RunInv(cfg, rcap, wcap, es);
    WriterGoesOn(cfg, rcap, wcap, es);
    PoppedBeforeExit(cfg, rcap, wcap, es, k);
    var o, prior := End(cfg, Start(rcap, wcap), es).outb, End(cfg, Start(rcap, wcap), es[..k]).outb;
    FlushedWire(cfg, End(cfg, Start(rcap, wcap), es));
    assert prior.pushed <= o.popped;
    assert o.popped == prior.pushed + o.popped[|prior.pushed|..];
    ConcatPrefix(prior.pushed, o.popped[|prior.pushed|..]);
  }

  lemma FlushedWire(cfg: Config, c: Conn)
    requires ConnInv(cfg, c) && Flushed(c.outb)
    ensures c.outb.wire == Concat(c.outb.popped)
    ensures c.outb.writer == Exited(true) || c.outb.popped == c.outb.pushed
  {
    hide InboxInv;
    hide HandlersInv;
    hide Concat;
  }

  /** Frames pushed before Close reach the wire: after Close, with no failed write and none
      outstanding, all of them are there. */
  lemma ClosedQueueIsWritten(cfg: Config, rcap: Option<nat>, wcap: Option<nat>, es: seq<Event>)
    requires IsRun(cfg, Start(rcap, wcap), es) && NoWriteFailed(es)
    requires var o := End(cfg, Start(rcap, wcap), es).outb; FramesReportable(o.pushed) && o.closed && !o.writer.Writing?
    ensures var o := End(cfg, Start(rcap, wcap), es).outb;
      o.pushedAtClose <= |o.pushed| && Concat(o.pushed[..o.pushedAtClose]) <= o.wire
  {
    RunInv(cfg, rcap, wcap, es);
    WriterGoesOn(cfg, rcap, wcap, es);
    hide OutboxInv;
    ClosedWire(End(cfg, Start(rcap, wcap), es).outb);
  }

  lemma ClosedWire(o: Outbox)
    requires OutboxInv(o) && o.closed && Flushed(o)
    ensures o.pushedAtClose <= |o.pushed| && Concat(o.pushed[..o.pushedAtClose]) <= o.wire
  {
    hide Concat;
    var n := o.pushedAtClose;
    assert o.pushed[..n] == o.popped[..n];
    assert o.popped == o.popped[..n] + o.popped[n..];
    ConcatPrefix(o.popped[..n], o.popped[n..]);
  }

  /** From `o` to `p` frames were queued at most, none taken and no byte written. */
  ghost predicate OnlyQueued(o: Outbox, p: Outbox) {
    && p.writer == o.writer && p.wire == o.wire && p.popped == o.popped
    && o.items <= p.items && o.pushed <= p.pushed
  }

  /** Once the writer has left, nothing more is written: later frames stay in the queue. */
  lemma {:induction false} LateFramesStay(cfg: Config, c: Conn, es: seq<Event>)
    requires ConnInv(cfg, c) && c.outb.writer.Exited? && IsRun(cfg, c, es)
    ensures ConnInv(cfg, End(cfg, c, es)) && OnlyQueued(c.outb, End(cfg, c, es).outb)
    decreases |es|
  {
    hide ConnInv;
    hide Next;
    hide Enabled;
    if es != [] {
      var init, e := es[..|es| - 1], es[|es| - 1];
      LateFramesStay(cfg, c, init);
      var d := End(cfg, c, init);
      NextKeeps(cfg, d, e);
      Settled(cfg, Next(cfg, d, e));
      LateStep(cfg, d, e);
    }
  }

  lemma LateStep(cfg: Config, c: Conn, e: Event)
    requires ConnInv(cfg, c) && Enabled(c, e) && c.outb.writer.Exited?
    ensures OnlyQueued(c.outb, Next(cfg, c, e).outb)
  {
    hide InboxInv;
    hide WorkInv;
    if e.ReadDone? {
      var i := Receive(c.inb, e.data);
      HandleAllLate(cfg, c.(reading := false, inb := DrainInbox(i)), Drain(i.unread).msgs);
    }
  }

  lemma {:induction false} HandleAllLate(cfg: Config, c: Conn, ms: seq<Message>)
    requires c.outb.writer.Exited? && !c.outb.waiting
    ensures OnlyQueued(c.outb, HandleAll(cfg, c, ms).outb)
    decreases |ms|
  {
    hide Frame;
    if ms != [] { HandleAllLate(cfg, Handle(cfg, c, ms[0]), ms[1..]); }
  }

  // ---------- no lost wakeup ----------

  /** In every reachable state the writer sleeps only on an empty, open queue; what was pushed is
      what was popped followed by what is queued; and the writer leaves through Pop only when the
      queue is closed, and in that moment empty. */
  lemma NoLostWakeup(cfg: Config, rcap: Option<nat>, wcap: Option<nat>, es: seq<Event>)
    requires IsRun(cfg, Start(rcap, wcap), es)
    ensures var o := End(cfg, Start(rcap, wcap), es).outb;
      && (o.waiting <==> o.writer.AtPop?)
      && (o.waiting ==> o.items == [] && !o.closed)
      && o.pushed == o.popped + o.items
      && (o.writer == Exited(true) ==> o.closed)
      && (es != [] && o.writer == Exited(true) && !HadLeft(cfg, Start(rcap, wcap), es, |es| - 1) ==> o.items == [])
  {
    RunInv(cfg, rcap, wcap, es);
    if es != [] {
      var init := es[..|es| - 1];
      PrefixRun(cfg, Start(rcap, wcap), es, |es| - 1);
      RunInv(cfg, rcap, wcap, init);
      var c := End(cfg, Start(rcap, wcap), init);
      hide ConnInv;
      hide Next;
      if !c.outb.writer.Exited? { LeavesEmptyQueue(cfg, c, es[|es| - 1]); }
    }
  }
}
