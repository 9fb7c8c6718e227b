/** Framing over a buffer: the parser and the encoder, and the server's drain loop. */
module Protocol {
  import opened Wire
  import opened Connection
  import opened ByteBuffer

  /** Look at the unread bytes once: take a whole frame, drop one byte of garbage, or wait. */
  method ParseMessage(buffer: Buffer) returns (header: Header, payload: Option<bytes>)
    requires buffer.Valid()
    modifies buffer`readIdx
    ensures buffer.Valid()
    ensures match Parse(old(buffer.Unread()))
      case NeedMore => payload == None && buffer.Unread() == old(buffer.Unread())
      case BadMagic => payload == None && buffer.Unread() == old(buffer.Unread())[1..]
      case Parsed(m) => Some(m.payload) == payload && header == m.header && buffer.Unread() == old(buffer.Unread())[Size(m)..]
  {
    header := Header(0, 0, 0, 0, 0);
    if buffer.ReadableBytes() < HEADER_SIZE { return header, None; }
    ghost var b := buffer.Unread();
    header := DecodeHeader(buffer.Unread());
    if header.magic != MAGIC {
      buffer.HasRead(1);
      return header, None;
    }
    if buffer.ReadableBytes() < HEADER_SIZE + header.payloadLen { return header, None; }
    buffer.HasRead(HEADER_SIZE);
    var body := [];
    if header.payloadLen > 0 {
      body := buffer.Unread()[..header.payloadLen];
      buffer.HasRead(header.payloadLen);
      assert b[HEADER_SIZE..][header.payloadLen..] == b[HEADER_SIZE + header.payloadLen..];
    }
    assert body == b[HEADER_SIZE..HEADER_SIZE + header.payloadLen];
    payload := Some(body);
  }

  /** Append one frame. The encoder does not look at the outcome of EnsureWritable, so its caller
      owes it a growing buffer or enough room. */
  method EncodeMessage(buffer: Buffer, header: Header, payload: bytes)
    requires buffer.Valid()
    requires buffer.isFixed ==> |buffer.Unread()| + HEADER_SIZE + |payload| <= buffer.capacity
    modifies buffer, buffer.mem
    ensures buffer.Valid() && buffer.Unread() == old(buffer.Unread()) + Encode(header, payload)
    ensures buffer.mem == old(buffer.mem) || (!buffer.isFixed && fresh(buffer.mem))
  {
    hide EncodeHeader;
    ghost var before := buffer.Unread();
    var ok := buffer.EnsureWritable(HEADER_SIZE + |payload|);
    var h := EncodeHeader(header, |payload|);
    buffer.Append(h);
    if |payload| > 0 { buffer.Append(payload); }
    assert (before + h) + payload == before + (h + payload);
  }

  /** Handling a frame does not look at the read buffer. */
  lemma HandleCommutes(cfg: Config, c: Conn, m: Message, unread: bytes, skipped: nat)
    ensures Handle(cfg, c.(inb := c.inb.(unread := unread, skipped := skipped)), m)
      == Handle(cfg, c, m).(inb := Handle(cfg, c, m).inb.(unread := unread, skipped := skipped))
  {}

  lemma DrainOne(cfg: Config, c: Conn)
    requires Parse(c.inb.unread).Parsed?
    ensures var m := Parse(c.inb.unread).msg;
      DrainAll(cfg, c) == DrainAll(cfg, Handle(cfg, c.(inb := c.inb.(unread := c.inb.unread[Size(m)..])), m))
  {
    hide Handle;
    hide Parse;
    hide Size;
    var b := c.inb.unread;
    var m := Parse(b).msg;
    var c1 := c.(inb := c.inb.(unread := b[Size(m)..]));
    var d := Drain(b[Size(m)..]);
    assert Drain(b) == Cons(m, d) && Cons(m, d).msgs[1..] == d.msgs;
    hide Drain;
    HandleCommutes(cfg, c1, m, d.rest, c.inb.skipped + d.skips);
    HandleKeepsInbox(cfg, c1, m);
  }

  lemma HandleKeepsInbox(cfg: Config, c: Conn, m: Message)
    ensures var r := Handle(cfg, c, m).inb; r.unread == c.inb.unread && r.skipped == c.inb.skipped
  {}

  /** The inner loop of handleConnection, on the real buffer: parse and handle, frame by frame,
      until the parser comes back empty-handed. */
  method DrainRequests(cfg: Config, buffer: Buffer, conn: Conn) returns (c: Conn)
    requires buffer.Valid() && conn.inb.unread == buffer.Unread()
    modifies buffer`readIdx
    ensures buffer.Valid() && c == DrainAll(cfg, conn) && c.inb.unread == buffer.Unread()
  {
    hide Handle;
    hide HandleAll;
    hide Parse;
    c := conn;
    while buffer.ReadableBytes() >= HEADER_SIZE
      invariant buffer.Valid() && c.inb.unread == buffer.Unread()
      invariant DrainAll(cfg, c) == DrainAll(cfg, conn)
      decreases |c.inb.unread|
    {
      ghost var before := c;
      var header, payload := ParseMessage(buffer);
      if payload.None? {
        LastLook(cfg, before);
        c := c.(inb := c.inb.(unread := buffer.Unread(), skipped := c.inb.skipped + if |buffer.Unread()| < |c.inb.unread| then 1 else 0));
        return;
      }
      var m := Message(header, payload.value);
      DrainOne(cfg, before);
      HandleKeepsInbox(cfg, c.(inb := c.inb.(unread := buffer.Unread())), m);
      c := Handle(cfg, c.(inb := c.inb.(unread := buffer.Unread())), m);
    }
    TooShort(c.inb.unread);
    LastLook(cfg, c);
  }

  /** The body of handleConnection after a successful read, on the real buffer: the kernel's bytes
      are committed, the buffer is drained, and the next read goes out. */
  method OnReadDone(cfg: Config, buffer: Buffer, conn: Conn, data: bytes) returns (c: Conn)
    requires buffer.Valid() && conn.inb.unread == buffer.Unread() && |data| <= buffer.WritableBytes()
    modifies buffer`writeIdx, buffer`readIdx, buffer.mem
    ensures buffer.Valid() && c == GotBytes(cfg, conn, data) && c.inb.unread == buffer.Unread()
  {
    buffer.Append(data);
    c := DrainRequests(cfg, buffer, conn.(reading := false, inb := Receive(conn.inb, data)));
    c := c.(reading := true, out := c.out + [ReadOp]);
  }

  lemma TooShort(b: bytes)
    requires |b| < HEADER_SIZE
    ensures Parse(b).NeedMore?
  {}

  lemma LastLook(cfg: Config, c: Conn)
    ensures var b := c.inb.unread;
      && (Parse(b).NeedMore? ==> DrainAll(cfg, c) == c)
      && (Parse(b).BadMagic? ==> |b| >= 1 && DrainAll(cfg, c) == c.(inb := c.inb.(unread := b[1..], skipped := c.inb.skipped + 1)))
  {}

  // ---------- one buffer, any interleaving of encodes and parses ----------

  datatype BufferOp = Put(header: Header, payload: bytes) | Get

  /** The reference: a first-in first-out queue of messages with normalised headers. */
  function Fifo(ops: seq<BufferOp>, q: seq<Message>): seq<Option<Message>>
    decreases |ops|
  {
    if ops == [] then [] else
    match ops[0]
    case Put(h, p) => Fifo(ops[1..], q + [Message(Normal(h, p), p)])
    case Get => if q == [] then [None] + Fifo(ops[1..], q) else [Some(q[0])] + Fifo(ops[1..], q[1..])
  }

  lemma FifoStep(ops: seq<BufferOp>, i: nat, q: seq<Message>, out: seq<Option<Message>>)
    requires i < |ops|
    ensures ops[i].Put? ==>
      Fifo(ops[i..], q) == Fifo(ops[i + 1..], q + [Message(Normal(ops[i].header, ops[i].payload), ops[i].payload)])
    ensures ops[i].Get? ==>
      out + Fifo(ops[i..], q) == (out + [Front(q)]) + Fifo(ops[i + 1..], if q == [] then q else q[1..])
  {}

  function Front(q: seq<Message>): Option<Message> {
    if q == [] then None else Some(q[0])
  }

  lemma PutOne(q: seq<Message>, h: Header, p: bytes)
    requires AllWellFormed(q) && |p| < TWO_32
    ensures var m := Message(Normal(h, p), p);
      AllWellFormed(q + [m]) && Stream(q + [m]) == Stream(q) + Encode(h, p)
  {
    var m := Message(Normal(h, p), p);
    StreamAppend(q, [m]);
    assert [m][1..] == [];
    assert Frame(m) + [] == Frame(m) == Encode(h, p);
  }

  lemma GetOne(q: seq<Message>)
    requires AllWellFormed(q)
    ensures q == [] ==> Parse(Stream(q)) == NeedMore
    ensures q != [] ==> Parse(Stream(q)) == Parsed(q[0]) && Stream(q)[Size(q[0])..] == Stream(q[1..]) && AllWellFormed(q[1..])
  {
    if q != [] {
      RoundTrip(q[0].header, q[0].payload, Stream(q[1..]));
      assert (Frame(q[0]) + Stream(q[1..]))[Size(q[0])..] == Stream(q[1..]);
      assert WellFormed(q[0]);
    }
  }

  /** Round trip through growth and compaction: whatever the interleaving of encodes and parses on
      one growing buffer, each parse gives back the oldest message not yet given back, or nothing
      when there is none. */
  method Replay(ops: seq<BufferOp>) returns (out: seq<Option<Message>>)
    requires forall i :: 0 <= i < |ops| && ops[i].Put? ==> |ops[i].payload| < TWO_32
    ensures out == Fifo(ops, [])
  {
    hide Parse;
    hide Encode;
    hide Frame;
    hide Normal;
    hide Fifo;
    hide Stream;
    EmptyReplay(ops);
    var buffer := new Buffer.Dynamic(0);
    out := [];
    ghost var q: seq<Message> := [];
    for i := 0 to |ops|
      invariant buffer.Valid() && fresh(buffer) && fresh(buffer.mem) && !buffer.isFixed
      invariant AllWellFormed(q) && buffer.Unread() == Stream(q)
      invariant out + Fifo(ops[i..], q) == Fifo(ops, [])
    {
      FifoStep(ops, i, q, out);
      match ops[i]
      case Put(h, p) =>
        PutOne(q, h, p);
        EncodeMessage(buffer, h, p);
        q := q + [Message(Normal(h, p), p)];
      case Get =>
        GetOne(q);
        var header, payload := ParseMessage(buffer);
        out := out + [if payload.Some? then Some(Message(header, payload.value)) else None];
        q := if q == [] then q else q[1..];
    }
    assert ops[|ops|..] == [] && out + [] == out;
  }

  lemma EmptyReplay(ops: seq<BufferOp>)
    ensures Stream([]) == [] && ops[0..] == ops && [] + Fifo(ops, []) == Fifo(ops, [])
    ensures forall q :: Fifo([], q) == []
  {}
}
