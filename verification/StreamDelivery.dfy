/** What the reader delivers, over every run of one connection and every way of cutting the stream. */
module StreamDelivery {
  import opened Wire
  import opened Connection
  import opened ConnectionRuns

  /** Any byte stream under any chunking: the messages delivered are a prefix of what the one-shot
      scanner finds in the whole stream, whatever is still to come; every received byte is in a
      delivered frame, skipped or unread; and at most one byte is skipped per read. */
  lemma ArbitraryStream(cfg: Config, rcap: Option<nat>, wcap: Option<nat>, es: seq<Event>, more: bytes)
    requires IsRun(cfg, Start(rcap, wcap), es)
    ensures var i := End(cfg, Start(rcap, wcap), es).inb;
      && i.delivered <= Scan(BytesIn(es) + more).msgs
      && TotalSize(i.delivered) + i.skipped + |i.unread| == |BytesIn(es)|
      && i.unread == BytesIn(es)[TotalSize(i.delivered) + i.skipped..]
      && i.skipped <= Reads(es)
  {
    hide Scan;
    hide Parse;
    hide TotalSize;
    hide OutboxInv;
    hide HandlersInv;
    RunInv(cfg, rcap, wcap, es);
    ScanAppend(BytesIn(es), more);
  }

  /** Well-formed streams under any chunking: after each drain the messages delivered are exactly
      the complete frames received so far, and the rest is a strict prefix of the next frame. */
  lemma ChunkIndependence(cfg: Config, rcap: Option<nat>, wcap: Option<nat>, es: seq<Event>, ms: seq<Message>)
    requires IsRun(cfg, Start(rcap, wcap), es)
    requires AllWellFormed(ms) && BytesIn(es) <= Stream(ms)
    ensures var i := End(cfg, Start(rcap, wcap), es).inb; var n := Complete(ms, |BytesIn(es)|);
      i.delivered == ms[..n] && i.skipped == 0 && CutAt(ms, n, BytesIn(es), i.unread)
  {
    RunInv(cfg, rcap, wcap, es);
    hide OutboxInv;
    hide WorkInv;
    hide InStep;
    WellFormedInbox(End(cfg, Start(rcap, wcap), es).inb, ms);
  }

  lemma WellFormedInbox(i: Inbox, ms: seq<Message>)
    requires InStep(i) && AllWellFormed(ms) && i.received <= Stream(ms)
    ensures var n := Complete(ms, |i.received|);
      i.delivered == ms[..n] && i.skipped == 0 && CutAt(ms, n, i.received, i.unread)
  {
    ScanStream(ms, i.received);
    assert i.skipped == 0;
    assert Scan(i.unread) == Scanned([], 0, i.unread);
    hide Scan;
    assert i.delivered + [] == i.delivered;
  }

  // ---------- when chunking matters ----------

  /** How far the parser got before it first skipped a byte. */
  ghost predicate FirstPass(i: Inbox) {
    var d := Drain(i.received);
    if i.skipped == 0 then d == Scanned(i.delivered, 0, i.unread) else d.skips == 1 && d.msgs <= i.delivered
  }

  lemma FirstPassKeeps(i: Inbox, data: bytes)
    requires FirstPass(i)
    ensures FirstPass(Drained(i, data))
  {
    hide Drain;
    DrainAppend(i.received, data);
  }

  lemma {:induction false} RunFirstPass(cfg: Config, rcap: Option<nat>, wcap: Option<nat>, es: seq<Event>)
    requires IsRun(cfg, Start(rcap, wcap), es)
    ensures FirstPass(End(cfg, Start(rcap, wcap), es).inb)
    decreases |es|
  {
    hide ConnInv;
    hide Next;
    hide Enabled;
    if es != [] {
      hide FirstPass;
      hide Drain;
      var init, e := es[..|es| - 1], es[|es| - 1];
      var c := End(cfg, Start(rcap, wcap), init);
      RunInv(cfg, rcap, wcap, init);
      RunFirstPass(cfg, rcap, wcap, init);
      NextInbox(cfg, c, e);
      if e.ReadDone? { FirstPassKeeps(c.inb, e.data); }
    }
  }

  /** The stream is whole frames followed by bytes in which the scanner finds no frame at all. */
  ghost predicate FramesThenNone(b: bytes) {
    exists ms, rest :: AllWellFormed(ms) && b == Stream(ms) + rest && Scan(rest).msgs == []
  }

  /** Sufficient for every connection: such a stream delivers its frames however it is cut. */
  lemma FramesThenNoneDelivers(cfg: Config, rcap: Option<nat>, wcap: Option<nat>, es: seq<Event>)
    requires IsRun(cfg, Start(rcap, wcap), es) && FramesThenNone(BytesIn(es))
    ensures End(cfg, Start(rcap, wcap), es).inb.delivered == Scan(BytesIn(es)).msgs
  {
    hide Scan;
    hide Drain;
    hide Parse;
    hide TotalSize;
    hide OutboxInv;
    hide HandlersInv;
    hide FramesThenNone;
    hide IsRun;
    hide End;
    hide BytesIn;
    NoFrameAfterSkip(BytesIn(es));
    RunInv(cfg, rcap, wcap, es);
    RunFirstPass(cfg, rcap, wcap, es);
  }

  /** The room that the first read of a connection asks for. */
  function FirstRoom(rcap: Option<nat>): nat {
    if rcap.Some? then rcap.value else 0x1_0000
  }

  /** The exact condition: every way of cutting `b` delivers what the one-shot scanner finds in it if
      and only if `b` is whole frames followed by bytes that hold no frame. This is about streams that
      the first read has room for; with less room some cuts are impossible. */
  lemma ChunkingNeverMattersIff(cfg: Config, rcap: Option<nat>, wcap: Option<nat>, b: bytes)
    requires |b| <= FirstRoom(rcap)
    ensures (forall es :: IsRun(cfg, Start(rcap, wcap), es) && BytesIn(es) == b ==>
               End(cfg, Start(rcap, wcap), es).inb.delivered == Scan(b).msgs)
      <==> FramesThenNone(b)
  {
    hide Scan;
    hide Drain;
    hide End;
    hide BytesIn;
    hide FramesThenNone;
    if b == [] { NothingToScan(); } else { OneChunk(cfg, rcap, wcap, b); }
    NoFrameAfterSkip(b);
    if FramesThenNone(b) {
      forall es | IsRun(cfg, Start(rcap, wcap), es) && BytesIn(es) == b
        ensures End(cfg, Start(rcap, wcap), es).inb.delivered == Scan(b).msgs
      {
        FramesThenNoneDelivers(cfg, rcap, wcap, es);
      }
    }
  }

  lemma NothingToScan()
    ensures Scan([]).msgs == Drain([]).msgs
  {}

  lemma NoFrameAfterSkip(b: bytes)
    ensures FramesThenNone(b) <==> Scan(b).msgs == Drain(b).msgs
  {
    hide Scan;
    hide Drain;
    hide Stream;
    hide WellFormed;
    hide Parse;
    if FramesThenNone(b) {
      var ms, rest :| AllWellFormed(ms) && b == Stream(ms) + rest && Scan(rest).msgs == [];
      ScanFrames(ms, rest);
      DrainFrames(ms, rest);
      DrainThenScan(rest);
      assert Drain(rest).msgs == [];
    }
    if Scan(b).msgs == Drain(b).msgs { DrainedThenNone(b); }
  }

  lemma DrainedThenNone(b: bytes)
    requires Scan(b).msgs == Drain(b).msgs
    ensures FramesThenNone(b)
  {
    hide Scan;
    hide Drain;
    hide Stream;
    hide WellFormed;
    hide Parse;
    var ms := Drain(b).msgs;
    DrainedFrames(b);
    var rest := b[|Stream(ms)|..];
    assert b == Stream(ms) + rest;
    ScanFrames(ms, rest);
    assert |Scan(rest).msgs| == 0;
  }

  lemma {:induction false} ScanFrames(ms: seq<Message>, rest: bytes)
    requires AllWellFormed(ms)
    ensures Scan(Stream(ms) + rest).msgs == ms + Scan(rest).msgs
  {
    hide WellFormed;
    hide Frame;
    hide Parse;
    hide Scan;
    if ms == [] {
      assert Stream(ms) + rest == rest;
    } else {
      var m, tail := ms[0], ms[1..];
      FirstFrame(ms, rest);
      ScanFrame(m, Stream(tail) + rest);
      ScanFrames(tail, rest);
      assert ms == [m] + tail;
    }
  }

  lemma {:induction false} DrainFrames(ms: seq<Message>, rest: bytes)
    requires AllWellFormed(ms)
    ensures Drain(Stream(ms) + rest).msgs == ms + Drain(rest).msgs
  {
    hide WellFormed;
    hide Frame;
    hide Drain;
    if ms == [] {
      assert Stream(ms) + rest == rest;
    } else {
      var m, tail := ms[0], ms[1..];
      FirstFrame(ms, rest);
      DrainFrame(m, Stream(tail) + rest);
      DrainFrames(tail, rest);
      assert ms == [m] + tail;
    }
  }

  lemma FirstFrame(ms: seq<Message>, rest: bytes)
    requires ms != []
    ensures Stream(ms) + rest == Frame(ms[0]) + (Stream(ms[1..]) + rest)
  {
    hide Frame;
  }

  lemma DrainFrame(m: Message, rest: bytes)
    requires WellFormed(m)
    ensures Drain(Frame(m) + rest) == Cons(m, Drain(rest))
  {
    RoundTrip(m.header, m.payload, rest);
    assert (Frame(m) + rest)[Size(m)..] == rest;
  }

  /** What a drain delivers are well-formed messages, and their frames are the bytes it took. */
  lemma {:induction false} DrainedFrames(b: bytes)
    ensures AllWellFormed(Drain(b).msgs) && Stream(Drain(b).msgs) <= b
    decreases |b|
  {
    hide Parse;
    hide WellFormed;
    hide Frame;
    if Parse(b).Parsed? {
      var m := Parse(b).msg;
      ParsedIsFrame(b);
      var d := Drain(b[Size(m)..]);
      DrainedFrames(b[Size(m)..]);
      assert ([m] + d.msgs)[1..] == d.msgs;
      assert b == b[..Size(m)] + b[Size(m)..];
    }
  }

  /** The whole stream in one read delivers what comes before the first skip. */
  lemma OneChunk(cfg: Config, rcap: Option<nat>, wcap: Option<nat>, b: bytes)
    requires b != [] && |b| <= FirstRoom(rcap)
    ensures var es := [ReadDone(b)];
      && IsRun(cfg, Start(rcap, wcap), es) && BytesIn(es) == b
      && End(cfg, Start(rcap, wcap), es).inb.delivered == Drain(b).msgs
  {
    hide Drain;
    hide Next;
    hide ConnInv;
    var c, e := Start(rcap, wcap), ReadDone(b);
    RunStep(cfg, c, [], e);
    assert [] + [e] == [e];
    FreshInv(cfg, rcap, wcap);
    Settled(cfg, Fresh(rcap, wcap));
    NextInbox(cfg, c, e);
    assert [] + b == b;
  }

  /** It does matter for every frame after a byte of garbage: read together with the garbage, the
      frame is kept back until the next read, although the scanner finds it. */
  lemma GarbageDelaysFrame(cfg: Config, rcap: Option<nat>, wcap: Option<nat>, m: Message)
    requires WellFormed(m) && 1 + Size(m) <= FirstRoom(rcap)
    ensures var b := [0] + Frame(m); var es := [ReadDone(b)];
      && Scan(b).msgs == [m]
      && IsRun(cfg, Start(rcap, wcap), es) && BytesIn(es) == b && End(cfg, Start(rcap, wcap), es).inb.delivered == []
  {
    hide IsRun;
    hide End;
    hide BytesIn;
    hide Frame;
    hide Scan;
    hide Drain;
    GarbageScan(m);
    OneChunk(cfg, rcap, wcap, [0] + Frame(m));
  }

  lemma GarbageScan(m: Message)
    requires WellFormed(m)
    ensures Scan([0] + Frame(m)).msgs == [m] && Drain([0] + Frame(m)).msgs == []
  {
    var b := [0] + Frame(m);
    assert Parse(b).BadMagic?;
    assert b[1..] == Frame(m) == Frame(m) + [];
    hide Parse;
    hide Frame;
    ScanFrame(m, []);
  }

  // ---------- when a fixed read buffer stalls ----------

  /** The exact stall condition of a fixed read buffer that holds at least a header: no read can
      bring anything if and only if the buffer is full of the beginning of one frame larger than
      the buffer. A read of no room returns 0, which ends the connection. */
  lemma StallIff(cfg: Config, cap: nat, wcap: Option<nat>, es: seq<Event>)
    requires cap >= HEADER_SIZE
    requires IsRun(cfg, Start(Some(cap), wcap), es) && End(cfg, Start(Some(cap), wcap), es).reading
    ensures var c := End(cfg, Start(Some(cap), wcap), es); var b := c.inb.unread;
      (forall data :: !Enabled(c, ReadDone(data))) <==>
      |b| == cap && DecodeHeader(b).magic == MAGIC && HEADER_SIZE + DecodeHeader(b).payloadLen > cap
  {
    hide Parse;
    hide DecodeHeader;
    hide InStep;
    hide NoByteLost;
    hide OutboxInv;
    hide HandlersInv;
    RunInv(cfg, Some(cap), wcap, es);
    hide IsRun;
    hide End;
    var c := End(cfg, Start(Some(cap), wcap), es);
    if |c.inb.unread| < cap { assert Enabled(c, ReadDone([0])); } else { FullBuffer(c.inb.unread); }
  }

  lemma FullBuffer(b: bytes)
    requires |b| >= HEADER_SIZE && Parse(b).NeedMore?
    ensures DecodeHeader(b).magic == MAGIC && HEADER_SIZE + DecodeHeader(b).payloadLen > |b|
  {}

  /** So a stream whose frames all fit always leaves room to read on. */
  lemma FittingFramesNeverStall(cfg: Config, cap: nat, wcap: Option<nat>, es: seq<Event>, ms: seq<Message>)
    requires IsRun(cfg, Start(Some(cap), wcap), es)
    requires AllWellFormed(ms) && BytesIn(es) <= Stream(ms)
    requires cap > 0 && forall m :: m in ms ==> Size(m) <= cap
    ensures |End(cfg, Start(Some(cap), wcap), es).inb.unread| < cap
  {
    ChunkIndependence(cfg, Some(cap), wcap, es, ms);
    var n := Complete(ms, |BytesIn(es)|);
    if n < |ms| { assert Size(ms[n]) <= cap; }
  }

  /** The peer's side of it: a well-formed stream can stall the connection if and only if one of its
      frames is larger than the buffer. */
  lemma StreamStallsIff(cfg: Config, cap: nat, wcap: Option<nat>, ms: seq<Message>)
    requires cap >= HEADER_SIZE && AllWellFormed(ms)
    ensures (exists es :: CanStall(cfg, cap, wcap, ms, es)) <==> (exists m :: m in ms && Size(m) > cap)
  {
    hide IsRun;
    hide End;
    if es :| CanStall(cfg, cap, wcap, ms, es) {
      if forall m :: m in ms ==> Size(m) <= cap { FittingFramesNeverStall(cfg, cap, wcap, es, ms); }
    }
    if m :| m in ms && Size(m) > cap {
      var n := FirstOversized(ms, cap);
      var es := FillBuffer(cfg, cap, wcap, ms, n);
    }
  }

  /** Run `es` reads a beginning of the stream of `ms` and leaves the reader with a full buffer. */
  ghost predicate CanStall(cfg: Config, cap: nat, wcap: Option<nat>, ms: seq<Message>, es: seq<Event>) {
    && IsRun(cfg, Start(Some(cap), wcap), es) && BytesIn(es) <= Stream(ms)
    && var c := End(cfg, Start(Some(cap), wcap), es); c.reading && |c.inb.unread| == cap
  }

  lemma FirstOversized(ms: seq<Message>, cap: nat) returns (n: nat)
    requires exists m :: m in ms && Size(m) > cap
    ensures n < |ms| && Size(ms[n]) > cap && forall i :: 0 <= i < n ==> Size(ms[i]) <= cap
  {
    n := 0;
    while Size(ms[n]) <= cap
      invariant n < |ms| && (forall i :: 0 <= i < n ==> Size(ms[i]) <= cap)
      invariant exists i :: n <= i < |ms| && Size(ms[i]) > cap
      decreases |ms| - n
    {
      n := n + 1;
    }
  }

  /** The reads of this run bring one byte each, which any read with room can do. */
  ghost predicate SingleBytes(es: seq<Event>) {
    forall k :: 0 <= k < |es| && es[k].ReadDone? ==> |es[k].data| == 1
  }

  /** Single bytes up to the point where frame `n`, the first too large, fills the buffer. */
  lemma FillBuffer(cfg: Config, cap: nat, wcap: Option<nat>, ms: seq<Message>, n: nat) returns (es: seq<Event>)
    requires AllWellFormed(ms)
    requires n < |ms| && Size(ms[n]) > cap && forall i :: 0 <= i < n ==> Size(ms[i]) <= cap
    ensures CanStall(cfg, cap, wcap, ms, es) && SingleBytes(es)
  {
    hide Next;
    hide ConnInv;
    hide WellFormed;
    hide Frame;
    hide Enabled;
    hide IsRun;
    hide End;
    hide BytesIn;
    hide CutAt;
    hide Complete;
    hide Stream;
    var start := Start(Some(cap), wcap);
    var full := |Stream(ms[..n])| + cap;
    StreamReaches(ms, n);
    EmptyRun(cfg, start);
    es := [];
    var k := 0;
    while k < full
      invariant k <= full && IsRun(cfg, start, es) && SingleBytes(es)
      invariant BytesIn(es) == Stream(ms)[..k] && End(cfg, start, es).reading
    {
      var e := ReadDone([Stream(ms)[k]]);
      var c := End(cfg, start, es);
      RunInv(cfg, Some(cap), wcap, es);
      ChunkIndependence(cfg, Some(cap), wcap, es, ms);
      UnreadSize(ms, n, cap, Complete(ms, k), Stream(ms)[..k], c.inb.unread);
      assert Enabled(c, e) by { RoomForByte(c, Stream(ms)[k]); }
      RunStep(cfg, start, es, e);
      ReadKeepsReading(cfg, c, e.data);
      assert Stream(ms)[..k] + e.data == Stream(ms)[..k + 1];
      es, k := es + [e], k + 1;
    }
    ChunkIndependence(cfg, Some(cap), wcap, es, ms);
    UnreadSize(ms, n, cap, Complete(ms, k), Stream(ms)[..k], End(cfg, start, es).inb.unread);
  }

  lemma RoomForByte(c: Conn, x: byte)
    requires c.reading && (c.inb.cap.Some? ==> |c.inb.unread| < c.inb.cap.value)
    ensures Enabled(c, ReadDone([x]))
  {}

  lemma ReadKeepsReading(cfg: Config, c: Conn, data: bytes)
    requires Enabled(c, ReadDone(data))
    ensures Next(cfg, c, ReadDone(data)).reading
  {
    hide HandleAll;
  }

  lemma StreamReaches(ms: seq<Message>, n: nat)
    requires n < |ms|
    ensures |Stream(ms)| >= |Stream(ms[..n])| + Size(ms[n])
  {
    hide Frame;
    assert ms == ms[..n] + ms[n..];
    StreamAppend(ms[..n], ms[n..]);
  }

  /** What is unread of a cut that ends in the first `n` frames or in the `cap` bytes after them. */
  lemma UnreadSize(ms: seq<Message>, n: nat, cap: nat, k: nat, b: bytes, rest: bytes)
    requires n < |ms| && Size(ms[n]) > cap && forall i :: 0 <= i < n ==> Size(ms[i]) <= cap
    requires CutAt(ms, k, b, rest) && |b| <= |Stream(ms[..n])| + cap
    ensures |b| < |Stream(ms[..n])| + cap ==> |rest| < cap
    ensures |b| == |Stream(ms[..n])| + cap ==> |rest| == cap
  {
    hide Frame;
    if k > n {
      assert ms[..k][..n] == ms[..n];
      StreamReaches(ms[..k], n);
    } else if k < n {
      assert ms[..n][..k] == ms[..k];
      StreamReaches(ms[..n], k);
    }
  }
}
