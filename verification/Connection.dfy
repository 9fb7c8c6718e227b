/** One connection as a machine of cooperating coroutines: the reader (handleConnection), the
    writer (writeLoop with Write inside it) and the request handlers, sharing a response queue.

    A coroutine is its program counter. Everything a resumed coroutine does up to its next
    suspension, including the writer it wakes inside the same call stack, is one `Next` step.
    The kernel is the environment: it picks the event. */
module Connection {
  import opened Wire
  import opened Totals

  /** `serve` stands for protobuf decoding, the handler's work and protobuf encoding:
      None means that the request payload does not decode. */
  datatype Config = Config(async: bool, serve: bytes -> Option<bytes>)

  /** The receiving side: the read buffer, and what has gone through it. */
  datatype Inbox = Inbox(
    cap: Option<nat>,        // capacity of the fixed read buffer, None when it is dynamic
    unread: bytes,           // read buffer contents
    received: bytes,         // bytes the kernel has handed over
    readCount: nat,          // successful reads
    skipped: nat,            // bytes dropped to resynchronise
    delivered: seq<Message>  // frames the parser has returned
  )

  datatype Writer =
    | AtPop                            // suspended in Pop
    | Writing(frame: bytes, sent: nat) // suspended in WriteOnce, `sent` bytes already accepted
    | Exited(drained: bool)            // left the loop; `drained` iff Pop returned nullopt

  /** The sending side: the response queue and the writer, and what has gone through them. */
  datatype Outbox = Outbox(
    items: seq<bytes>,       // items_
    waiting: bool,           // waiter_ is set
    closed: bool,            // closed_
    writer: Writer,
    writes: nat,             // write operations submitted
    pushed: seq<bytes>,
    popped: seq<bytes>,
    pushedAtClose: nat,      // how many pushes came before Close
    wire: bytes              // bytes the kernel has accepted for sending
  )

  /** A kind of I/O operation on this connection that a coroutine can be suspended on. */
  datatype Op = ReadOp | WriteOp | SleepOp(request: nat)

  datatype Conn = Conn(
    inb: Inbox,
    outb: Outbox,
    wcap: Option<nat>,       // capacity of the fixed staging buffer
    reading: bool,           // reader suspended in Read
    sleeping: map<nat, Message>, // handlers suspended in AsyncSleep and what they will answer,
                             // by index in `inb.delivered`
    finished: seq<nat>,      // requests answered, in the order of their pushes
    out: seq<Op>             // operations submitted by the current step, in order
  )

  // ---------- the response to a request ----------

  function Response(cfg: Config, m: Message): Option<Message> {
    if m.header.msgType != 0 then None else
    match cfg.serve(m.payload)
    case None => None
    case Some(p) => Some(Message(Normal(m.header.(msgType := 1), p), p))
  }

  // ---------- the writer and the queue ----------

  /** From the moment Pop delivers until the next suspension or the end. Write returns 0 for an
      empty frame, which the loop takes for a lost connection. */
  function TakeItem(o: Outbox): Outbox {
    if o.items == [] then o.(writer := Exited(true)) else
    var f := o.items[0];
    var o1 := o.(items := o.items[1..], popped := o.popped + [f]);
    if f == [] then o1.(writer := Exited(false))
    else o1.(writer := Writing(f, 0), writes := o.writes + 1)
  }

  /** Back at the top of writeLoop. */
  function AwaitItem(o: Outbox): Outbox {
    if o.items != [] || o.closed then TakeItem(o) else o.(writer := AtPop, waiting := true)
  }

  /** The int that Write returns for `len`: the low 32 bits, read as two's complement. */
  function CastToInt(len: nat): int {
    var low := len % TWO_32;
    if low < 0x8000_0000 then low else low - TWO_32
  }

  /** A completion of the outstanding write with result `w`. */
  function Written(o: Outbox, w: int): Outbox
    requires o.writer.Writing? && w <= |o.writer.frame| - o.writer.sent
  {
    var f, k := o.writer.frame, o.writer.sent;
    if w <= 0 then o.(writer := Exited(false)) else
    var o1 := o.(wire := o.wire + f[k..k + w]);
    if k + w < |f| then o1.(writer := Writing(f, k + w), writes := o.writes + 1)
    else if CastToInt(|f|) <= 0 then o1.(writer := Exited(false))
    else AwaitItem(o1)
  }

  /** Resume the writer if it waits in Pop, inside the caller's stack. */
  function Wake(o: Outbox): Outbox {
    if o.waiting then TakeItem(o.(waiting := false)) else o
  }

  function Push(o: Outbox, f: bytes): Outbox {
    Wake(o.(items := o.items + [f], pushed := o.pushed + [f]))
  }

  function Close(o: Outbox): Outbox {
    Wake(o.(closed := true, pushedAtClose := |o.pushed|))
  }

  // ---------- the handlers and the reader ----------

  /** Replace the sending side, noting the write operation it may have submitted. */
  function SetOutbox(c: Conn, o: Outbox): Conn {
    c.(outb := o, out := if o.writes > c.outb.writes then c.out + [WriteOp] else c.out)
  }

  /** The tail of handleRequest `i`: encode the response and push it. */
  function Finish(c: Conn, i: nat, response: Message): Conn {
    SetOutbox(c.(finished := c.finished + [i], sleeping := c.sleeping - {i}), Push(c.outb, Frame(response)))
  }

  /** A frame leaves the parser: only requests that decode get a handler that goes on. */
  function Handle(cfg: Config, c: Conn, m: Message): Conn {
    var i := |c.inb.delivered|;
    var c1 := c.(inb := c.inb.(delivered := c.inb.delivered + [m]));
    match Response(cfg, m)
    case None => c1
    case Some(r) =>
      if cfg.async then c1.(sleeping := c1.sleeping[i := r], out := c1.out + [SleepOp(i)])
      else Finish(c1, i, r)
  }

  function HandleAll(cfg: Config, c: Conn, ms: seq<Message>): Conn
    decreases |ms|
  {
    if ms == [] then c else HandleAll(cfg, Handle(cfg, c, ms[0]), ms[1..])
  }

  /** What one drain leaves of the read buffer. */
  function DrainInbox(i: Inbox): Inbox {
    var d := Drain(i.unread);
    i.(unread := d.rest, skipped := i.skipped + d.skips)
  }

  function Receive(i: Inbox, data: bytes): Inbox {
    i.(unread := i.unread + data, received := i.received + data, readCount := i.readCount + 1)
  }

  /** One run of the reader's inner loop: drain the read buffer, handle what it held. */
  function DrainAll(cfg: Config, c: Conn): Conn {
    HandleAll(cfg, c.(inb := DrainInbox(c.inb)), Drain(c.inb.unread).msgs)
  }

  /** The reader from a successful read to its next one. */
  function GotBytes(cfg: Config, c: Conn, data: bytes): Conn {
    var r := DrainAll(cfg, c.(reading := false, inb := Receive(c.inb, data)));
    r.(reading := true, out := r.out + [ReadOp])
  }

  // ---------- events and steps ----------

  datatype Event =
    | ReadDone(data: bytes)   // a positive read result and what it brought
    | ReadEnded               // end of file, an error, or a cancelled read
    | WriteDone(result: int)
    | SleepDone(request: nat) // the timer fired or was cancelled

  function OpOf(e: Event): Op {
    match e
    case ReadDone(_) => ReadOp
    case ReadEnded => ReadOp
    case WriteDone(_) => WriteOp
    case SleepDone(i) => SleepOp(i)
  }

  /** Which coroutines are suspended on I/O. */
  predicate Waits(c: Conn, op: Op) {
    match op
    case ReadOp => c.reading
    case WriteOp => c.outb.writer.Writing?
    case SleepOp(i) => i in c.sleeping
  }

  /** Bytes that one write operation offers to the kernel. */
  function Staged(wcap: Option<nat>, remaining: int): int {
    if wcap.Some? && wcap.value < remaining then wcap.value else remaining
  }

  /** The kernel completes an operation that is outstanding, and a positive result never exceeds
      what was asked for. The room asked for by a read is at most what unread bytes leave free. */
  predicate Enabled(c: Conn, e: Event) {
    && Waits(c, OpOf(e))
    && match e
       case ReadDone(data) => data != [] && (c.inb.cap.Some? ==> |c.inb.unread| + |data| <= c.inb.cap.value)
       case ReadEnded => true
       case WriteDone(w) => w <= Staged(c.wcap, |c.outb.writer.frame| - c.outb.writer.sent)
       case SleepDone(_) => true
  }

  function Next(cfg: Config, c: Conn, e: Event): Conn
    requires Enabled(c, e)
  {
    match e
    case ReadDone(data) => GotBytes(cfg, c, data)
    case ReadEnded => SetOutbox(c.(reading := false), Close(c.outb))
    case WriteDone(w) => SetOutbox(c, Written(c.outb, w))
    case SleepDone(i) => Finish(c, i, c.sleeping[i])
  }

  /** handleConnection up to its first suspension: the writer waits, the first read is out. */
  function Fresh(rcap: Option<nat>, wcap: Option<nat>): Conn {
    Conn(Inbox(rcap, [], [], 0, 0, []), Outbox([], true, false, AtPop, 0, [], [], 0, []),
         wcap, true, map[], [], [ReadOp])
  }

  // ---------- invariants ----------

  function Concat(fs: seq<bytes>): bytes {
    if fs == [] then [] else Concat(fs[..|fs| - 1]) + fs[|fs| - 1]
  }

  function Responses(cfg: Config, ms: seq<Message>): seq<Message> {
    if ms == [] then [] else
    var r := Response(cfg, ms[|ms| - 1]);
    if r.Some? then Responses(cfg, ms[..|ms| - 1]) + [r.value] else Responses(cfg, ms[..|ms| - 1])
  }

  function Frames(ms: seq<Message>): seq<bytes> {
    seq(|ms|, i requires 0 <= i < |ms| => Frame(ms[i]))
  }

  /** The parser has kept pace with the reference scanner. */
  ghost predicate InStep(i: Inbox) {
    && Scan(i.received) == After(i.delivered, i.skipped, Scan(i.unread))
    && (i.skipped == 0 ==> Parse(i.unread).NeedMore?)
  }

  /** Every byte received was delivered in a frame, was skipped, or is still unread. */
  ghost predicate NoByteLost(i: Inbox) {
    && TotalSize(i.delivered) + i.skipped + |i.unread| == |i.received|
    && i.unread == i.received[TotalSize(i.delivered) + i.skipped..]
  }

  /** A fixed buffer is never overrun, and when it is full the parser is short of bytes. */
  ghost predicate Fits(i: Inbox) {
    i.cap.Some? ==> |i.unread| <= i.cap.value && (|i.unread| == i.cap.value ==> Parse(i.unread).NeedMore?)
  }

  ghost predicate InboxInv(i: Inbox) {
    InStep(i) && NoByteLost(i) && Fits(i) && i.skipped <= i.readCount
  }

  /** The queue is first-in first-out, the writer sleeps only on an empty open queue, and the
      wire carries whole frames in the order they were popped. */
  ghost predicate OutboxInv(o: Outbox) {
    && o.pushed == o.popped + o.items
    && (o.waiting <==> o.writer.AtPop?)
    && (o.waiting ==> o.items == [] && !o.closed)
    && (o.closed ==> o.pushedAtClose <= |o.pushed|)
    && match o.writer
       case AtPop => o.wire == Concat(o.popped)
       case Writing(f, k) =>
         && o.popped != [] && o.popped[|o.popped| - 1] == f && k < |f|
         && o.wire == Concat(o.popped[..|o.popped| - 1]) + f[..k]
       case Exited(drained) =>
         if drained then o.wire == Concat(o.popped) && o.closed && o.pushedAtClose <= |o.popped|
         else o.wire <= Concat(o.popped)
  }

  predicate IsWork(cfg: Config, delivered: seq<Message>, i: nat) {
    i < |delivered| && Response(cfg, delivered[i]).Some?
  }

  /** Each delivered request that decodes is either asleep or has pushed exactly one frame. */
  ghost predicate WorkInv(cfg: Config, ms: seq<Message>, pushed: seq<bytes>, finished: seq<nat>, sleeping: map<nat, Message>) {
    && |pushed| == |finished|
    && Distinct(finished)
    && (forall k :: 0 <= k < |finished| ==>
          IsWork(cfg, ms, finished[k]) && pushed[k] == Frame(Response(cfg, ms[finished[k]]).value))
    && (forall i :: i in sleeping ==>
          IsWork(cfg, ms, i) && sleeping[i] == Response(cfg, ms[i]).value && i !in finished)
    && (forall i: nat :: IsWork(cfg, ms, i) ==> i in sleeping || i in finished)
  }

  ghost predicate HandlersInv(cfg: Config, c: Conn) {
    && WorkInv(cfg, c.inb.delivered, c.outb.pushed, c.finished, c.sleeping)
    // the synchronous server answers before it parses on, so in request order
    && (!cfg.async ==> c.sleeping == map[] && c.outb.pushed == Frames(Responses(cfg, c.inb.delivered)))
  }

  ghost predicate ConnInv(cfg: Config, c: Conn) {
    && InboxInv(c.inb) && OutboxInv(c.outb) && HandlersInv(cfg, c)
    && (c.reading <==> !c.outb.closed)
    // only a handler that slept can push after Close
    && (!cfg.async && c.outb.closed ==> c.outb.pushedAtClose == |c.outb.pushed|)
  }

  // ---------- the sending side keeps its invariant ----------

  lemma ConcatPush(fs: seq<bytes>, f: bytes)
    ensures Concat(fs + [f]) == Concat(fs) + f
  {}

  lemma TakeItemKeeps(o: Outbox)
    requires o.wire == Concat(o.popped) && o.pushed == o.popped + o.items
    requires !o.waiting && (o.items != [] || o.closed)
    requires o.closed ==> o.pushedAtClose <= |o.pushed|
    ensures OutboxInv(TakeItem(o))
    ensures TakeItem(o).writer == Exited(true) ==> TakeItem(o).items == []
  {
    if o.items != [] {
      var f := o.items[0];
      ConcatPush(o.popped, f);
      assert o.popped + o.items == (o.popped + [f]) + o.items[1..];
      assert (o.popped + [f])[..|o.popped|] == o.popped;
      assert f[..0] == [];
    }
  }

  lemma PushKeeps(o: Outbox, f: bytes)
    requires OutboxInv(o)
    ensures OutboxInv(Push(o, f))
    ensures Push(o, f).writer == Exited(true) <==> o.writer == Exited(true)
  {}

  lemma CloseKeeps(o: Outbox)
    requires OutboxInv(o) && !o.closed
    ensures OutboxInv(Close(o))
    ensures !o.writer.Exited? && Close(o).writer.Exited? ==> Close(o).writer == Exited(true) && Close(o).items == []
  {}

  lemma WrittenKeeps(o: Outbox, w: int)
    requires OutboxInv(o) && o.writer.Writing? && w <= |o.writer.frame| - o.writer.sent
    ensures OutboxInv(Written(o, w))
    ensures Written(o, w).writer == Exited(true) ==> Written(o, w).items == []
  {
    hide OutboxInv;
    hide AwaitItem;
    hide CastToInt;
    WriterInFrame(o);
    if w <= 0 {
      WriteFailed(o);
    } else if o.writer.sent + w < |o.writer.frame| {
      PartWritten(o, w);
    } else {
      PartWritten(o, w);
      FrameWritten(o, w);
    }
  }

  lemma WriterInFrame(o: Outbox)
    requires OutboxInv(o) && o.writer.Writing?
    ensures o.writer.sent < |o.writer.frame|
  {
    hide Concat;
  }

  lemma WriteFailed(o: Outbox)
    requires OutboxInv(o) && o.writer.Writing?
    ensures OutboxInv(o.(writer := Exited(false)))
  {
    PartWritten(o, 0);
    assert o.wire + o.writer.frame[o.writer.sent..o.writer.sent] == o.wire;
    hide OutboxInv;
  }

  lemma PartWritten(o: Outbox, w: nat)
    requires OutboxInv(o) && o.writer.Writing? && o.writer.sent + w <= |o.writer.frame|
    ensures var f, k := o.writer.frame, o.writer.sent;
      var o1 := o.(wire := o.wire + f[k..k + w]);
      && OutboxInv(o1.(writer := Exited(false)))
      && (k + w < |f| ==> OutboxInv(o1.(writer := Writing(f, k + w), writes := o.writes + 1)))
  {}

  /** The last part of a frame is accepted: the wire ends with the whole frame. */
  lemma FrameWritten(o: Outbox, w: nat)
    requires OutboxInv(o) && o.writer.Writing? && o.writer.sent + w == |o.writer.frame|
    ensures var r := AwaitItem(o.(wire := o.wire + o.writer.frame[o.writer.sent..o.writer.sent + w]));
      OutboxInv(r) && (r.writer == Exited(true) ==> r.items == [])
  {
    var f, k := o.writer.frame, o.writer.sent;
    var init := o.popped[..|o.popped| - 1];
    assert o.popped == init + [f];
    ConcatPush(init, f);
    WireGrows(Concat(init), f, k, w);
    var o1 := o.(wire := o.wire + f[k..k + w]);
    if o.items != [] || o.closed { TakeItemKeeps(o1); }
  }

  /** A part of frame `f` accepted after `k` of its bytes. */
  lemma WireGrows(before: bytes, f: bytes, k: nat, w: nat)
    requires k + w <= |f|
    ensures (before + f[..k]) + f[k..k + w] == before + f[..k + w] <= before + f
    ensures f[..|f|] == f
  {}

  // ---------- the handlers keep theirs ----------

  /** Answering one request: its index leaves `sleeping` for `finished`, its frame is pushed. */
  lemma WorkFinish(cfg: Config, ms: seq<Message>, pushed: seq<bytes>, finished: seq<nat>, sleeping: map<nat, Message>, i: nat)
    requires WorkInv(cfg, ms, pushed, finished, sleeping) && i in sleeping
    ensures WorkInv(cfg, ms, pushed + [Frame(sleeping[i])], finished + [i], sleeping - {i})
  {}

  lemma WorkDeliver(cfg: Config, ms: seq<Message>, m: Message, pushed: seq<bytes>, finished: seq<nat>, sleeping: map<nat, Message>)
    requires WorkInv(cfg, ms, pushed, finished, sleeping)
    ensures WorkInv(cfg, ms + [m], pushed, finished,
              if Response(cfg, m).Some? then sleeping[|ms| := Response(cfg, m).value] else sleeping)
  {}

  lemma HandleKeeps(cfg: Config, c: Conn, m: Message)
    requires OutboxInv(c.outb) && HandlersInv(cfg, c)
    ensures var r := Handle(cfg, c, m); OutboxInv(r.outb) && HandlersInv(cfg, r)
  {
    hide WorkInv;
    hide OutboxInv;
    hide Frame;
    var ms, i := c.inb.delivered, |c.inb.delivered|;
    WorkDeliver(cfg, ms, m, c.outb.pushed, c.finished, c.sleeping);
    assert (ms + [m])[..i] == ms;
    if Response(cfg, m).Some? && !cfg.async {
      var r := Response(cfg, m).value;
      WorkFinish(cfg, ms + [m], c.outb.pushed, c.finished, c.sleeping[i := r], i);
      assert c.sleeping[i := r] - {i} == c.sleeping - {i} == map[];
      PushKeeps(c.outb, Frame(r));
      assert Frames(Responses(cfg, ms + [m])) == Frames(Responses(cfg, ms)) + [Frame(r)];
    }
  }

  /** Handlers touch neither the read buffer nor the reader. */
  ghost predicate SameReader(c: Conn, r: Conn) {
    && r.inb == c.inb.(delivered := r.inb.delivered)
    && r.outb.closed == c.outb.closed && r.reading == c.reading && r.wcap == c.wcap
  }

  lemma {:induction false} HandleAllKeeps(cfg: Config, c: Conn, ms: seq<Message>)
    requires OutboxInv(c.outb) && HandlersInv(cfg, c)
    ensures var r := HandleAll(cfg, c, ms);
      OutboxInv(r.outb) && HandlersInv(cfg, r) && SameReader(c, r) && r.inb.delivered == c.inb.delivered + ms
    decreases |ms|
  {
    hide HandlersInv;
    hide OutboxInv;
    if ms != [] {
      HandleKeeps(cfg, c, ms[0]);
      var c1 := Handle(cfg, c, ms[0]);
      HandleAllKeeps(cfg, c1, ms[1..]);
      assert c1.inb.delivered + ms[1..] == c.inb.delivered + ms;
    }
  }

  // ---------- the receiving side keeps its invariant ----------

  /** The receiving side after a read of `data` and the drain that follows. */
  function Drained(i: Inbox, data: bytes): Inbox {
    DrainInbox(Receive(i, data)).(delivered := i.delivered + Drain(i.unread + data).msgs)
  }

  lemma InStepKeeps(i: Inbox, data: bytes)
    requires InStep(i)
    ensures InStep(Drained(i, data))
  {
    hide Scan;
    hide Drain;
    hide Parse;
    var b := i.unread + data;
    var u, d := Scan(i.unread), Drain(b);
    ScanAppend(i.received, data);
    ScanAppend(i.unread, data);
    DrainThenScan(b);
    AfterAfter(i.delivered, i.skipped, u.msgs, u.skips, Scan(u.rest + data));
    AfterAfter(i.delivered, i.skipped, d.msgs, d.skips, Scan(d.rest));
  }

  lemma AfterAfter(a: seq<Message>, j: nat, b: seq<Message>, k: nat, s: Scanned)
    ensures After(a, j, After(b, k, s)) == After(a + b, j + k, s)
  {}

  lemma NoByteLostKeeps(i: Inbox, data: bytes)
    requires NoByteLost(i)
    ensures NoByteLost(Drained(i, data))
  {
    hide Drain;
    hide TotalSize;
    var b := i.unread + data;
    var d := Drain(b);
    DrainConserves(b);
    TotalSizeAppend(i.delivered, d.msgs);
    SuffixOfSuffix(i.received, data, TotalSize(i.delivered) + i.skipped, TotalSize(d.msgs) + d.skips);
  }

  lemma InboxKeeps(i: Inbox, data: bytes)
    requires InboxInv(i) && (i.cap.Some? ==> |i.unread| + |data| <= i.cap.value)
    ensures InboxInv(Drained(i, data))
  {
    hide InStep;
    hide NoByteLost;
    hide Parse;
    hide Drain;
    InStepKeeps(i, data);
    NoByteLostKeeps(i, data);
    DrainThenScan(i.unread + data);
  }

  lemma SuffixOfSuffix(a: bytes, data: bytes, j: nat, k: nat)
    requires j <= |a| && j + k <= |a| + |data|
    ensures (a[j..] + data)[k..] == (a + data)[j + k..]
  {}

  // ---------- every step keeps every invariant ----------

  lemma FreshInv(cfg: Config, rcap: Option<nat>, wcap: Option<nat>)
    ensures ConnInv(cfg, Fresh(rcap, wcap))
  {
    var i := Fresh(rcap, wcap).inb;
    assert InStep(i) by { assert [] + Scan([]).msgs == Scan([]).msgs; }
    hide InStep;
    assert Frames(Responses(cfg, [])) == [];
  }

  lemma GotBytesKeeps(cfg: Config, c: Conn, data: bytes)
    requires ConnInv(cfg, c) && Enabled(c, ReadDone(data))
    ensures ConnInv(cfg, GotBytes(cfg, c, data))
  {
    InboxKeeps(c.inb, data);
    hide InboxInv;
    hide OutboxInv;
    var i := Receive(c.inb, data);
    HandleAllKeeps(cfg, c.(reading := false, inb := DrainInbox(i)), Drain(i.unread).msgs);
  }

  lemma SleptKeeps(cfg: Config, c: Conn, i: nat)
    requires ConnInv(cfg, c) && i in c.sleeping
    ensures ConnInv(cfg, Finish(c, i, c.sleeping[i]))
  {
    hide InboxInv;
    hide OutboxInv;
    hide WorkInv;
    hide Frame;
    WorkFinish(cfg, c.inb.delivered, c.outb.pushed, c.finished, c.sleeping, i);
    PushKeeps(c.outb, Frame(c.sleeping[i]));
  }

  lemma NextKeeps(cfg: Config, c: Conn, e: Event)
    requires ConnInv(cfg, c) && Enabled(c, e)
    ensures ConnInv(cfg, Next(cfg, c, e))
  {
    hide InboxInv;
    hide OutboxInv;
    hide WorkInv;
    hide Frames;
    match e
    case ReadDone(data) => GotBytesKeeps(cfg, c, data);
    case ReadEnded => CloseKeeps(c.outb);
    case WriteDone(w) => WrittenKeeps(c.outb, w);
    case SleepDone(i) => SleptKeeps(cfg, c, i);
  }
}
