/** The wire format: 12-byte packed header in network byte order, then the payload.

    `Parse` is what one look at the unread bytes decides, `Scan` is the one-shot reference
    scanner over a whole stream, and `Drain` is one run of the server's inner loop, which
    unlike `Scan` stops at the first byte it skips. */
module Wire {

  datatype Option<+T> = None | Some(value: T)

  type byte = x: int | 0 <= x < 256
  type bytes = seq<byte>
  type u16 = x: int | 0 <= x < 0x1_0000
  type u32 = x: int | 0 <= x < 0x1_0000_0000

  const MAGIC: u16 := 0x5452
  const HEADER_SIZE: nat := 12
  const TWO_32: int := 0x1_0000_0000

  datatype Header = Header(magic: u16, version: byte, msgType: byte, seqId: u32, payloadLen: u32)
  datatype Message = Message(header: Header, payload: bytes)

  // ---------- byte order ----------

  function Htonl(n: u32): (r: bytes)
    ensures |r| == 4 && Ntohl(r) == n
  {
    var q1 := n / 256;
    var q2 := q1 / 256;
    [q2 / 256, q2 % 256, q1 % 256, n % 256]
  }

  function Ntohl(b: bytes): u32
    requires |b| == 4
  {
    var b0: int, b1: int, b2: int, b3: int := b[0], b[1], b[2], b[3];
    b0 * 0x100_0000 + b1 * 0x1_0000 + b2 * 256 + b3
  }

  function Ntohs(hi: byte, lo: byte): u16 {
    var h: int, l: int := hi, lo;
    h * 256 + l
  }

  // ---------- printing ----------

  /** The bytes the encoder appends. The caller's magic and length are overwritten, and the
      length field keeps only the low 32 bits of the payload size. */
  function Encode(h: Header, payload: bytes): (r: bytes)
    ensures |r| == HEADER_SIZE + |payload|
  {
    EncodeHeader(h, |payload|) + payload
  }

  function EncodeHeader(h: Header, payloadLen: nat): (r: bytes)
    ensures |r| == HEADER_SIZE
  {
    [MAGIC / 256, MAGIC % 256, h.version, h.msgType] + Htonl(h.seqId) + Htonl(payloadLen % TWO_32)
  }

  /** The header a receiver reads back. */
  function Normal(h: Header, payload: bytes): Header {
    h.(magic := MAGIC, payloadLen := |payload| % TWO_32)
  }

  predicate WellFormed(m: Message) {
    m.header == Normal(m.header, m.payload) && |m.payload| < TWO_32
  }

  function Frame(m: Message): (r: bytes)
    ensures |r| == Size(m)
  {
    Encode(m.header, m.payload)
  }

  function Size(m: Message): nat {
    HEADER_SIZE + |m.payload|
  }

  /** A stream of frames, one after the other. */
  function Stream(ms: seq<Message>): bytes {
    if ms == [] then [] else Frame(ms[0]) + Stream(ms[1..])
  }

  ghost predicate AllWellFormed(ms: seq<Message>) {
    forall m :: m in ms ==> WellFormed(m)
  }

  // ---------- parsing ----------

  datatype ParseResult = NeedMore | BadMagic | Parsed(msg: Message)

  function DecodeHeader(b: bytes): Header
    requires |b| >= HEADER_SIZE
  {
    Header(Ntohs(b[0], b[1]), b[2], b[3], Ntohl(b[4..8]), Ntohl(b[8..12]))
  }

  function Parse(b: bytes): (r: ParseResult)
    ensures r.Parsed? ==> Size(r.msg) <= |b|
    ensures r.BadMagic? ==> HEADER_SIZE <= |b|
  {
    if |b| < HEADER_SIZE then NeedMore else
    var h := DecodeHeader(b);
    if h.magic != MAGIC then BadMagic
    else if |b| < HEADER_SIZE + h.payloadLen then NeedMore
    else Parsed(Message(h, b[HEADER_SIZE..HEADER_SIZE + h.payloadLen]))
  }

  /** A verdict reached on the bytes at hand is not changed by bytes that arrive later. */
  lemma ParseStable(b: bytes, more: bytes)
    ensures !Parse(b).NeedMore? ==> Parse(b + more) == Parse(b)
  {}

  lemma HeaderOfPrefix(b: bytes, more: bytes)
    requires |b| >= HEADER_SIZE
    ensures DecodeHeader(b + more) == DecodeHeader(b)
  {}

  lemma DecodeEncodeHeader(h: Header, payload: bytes, more: bytes)
    ensures DecodeHeader(Encode(h, payload) + more) == Normal(h, payload)
  {}

  /** Round trip with its exact condition: what was encoded is read back, whatever follows it,
      if and only if the payload length fits the 32-bit field. */
  lemma RoundTrip(h: Header, payload: bytes, more: bytes)
    ensures Parse(Encode(h, payload) + more) == Parsed(Message(Normal(h, payload), payload)) <==> |payload| < TWO_32
    ensures |payload| >= TWO_32 ==>
      Parse(Encode(h, payload) + more) == Parsed(Message(Normal(h, payload), payload[..|payload| % TWO_32]))
  {
    var b := Encode(h, payload) + more;
    DecodeEncodeHeader(h, payload, more);
    var n := |payload| % TWO_32;
    assert n <= |payload|;
    assert b[HEADER_SIZE..HEADER_SIZE + n] == payload[..n];
    if |payload| < TWO_32 { assert payload[..n] == payload; }
  }

  /** Where each field goes: the letters TR, then version and type, then sequence number and length
      with the most significant byte first. */
  lemma Layout(h: Header, payload: bytes)
    ensures var b := Encode(h, payload);
      && b[0] as char == 'T' && b[1] as char == 'R' && b[2] == h.version && b[3] == h.msgType
      && Positional(b[4..8]) == h.seqId && Positional(b[8..12]) == |payload| % TWO_32 && b[12..] == payload
  {
    var b := Encode(h, payload);
    assert b[4..8] == Htonl(h.seqId);
    assert b[8..12] == Htonl(|payload| % TWO_32);
    FourDigits(b[4..8]);
    FourDigits(b[8..12]);
  }

  /** The number that `b` writes in base 256, first digit first. */
  function Positional(b: bytes): nat {
    if b == [] then 0 else Positional(b[..|b| - 1]) * 256 + b[|b| - 1]
  }

  lemma FourDigits(b: bytes)
    requires |b| == 4
    ensures Positional(b) == Ntohl(b)
  {
    assert b[..3][..2] == b[..2] && b[..2][..1] == b[..1] && b[..1][..0] == [];
    assert Positional(b[..1]) == b[0];
    assert Positional(b[..2]) == Positional(b[..1]) * 256 + b[1];
    assert Positional(b[..3]) == Positional(b[..2]) * 256 + b[2];
  }

  /** What the parser accepts is exactly what the encoder prints. */
  lemma ParsedIsFrame(b: bytes)
    requires Parse(b).Parsed?
    ensures WellFormed(Parse(b).msg)
    ensures Frame(Parse(b).msg) == b[..Size(Parse(b).msg)]
  {
    var m := Parse(b).msg;
    assert b[4..8] == Htonl(m.header.seqId) by { HtonlNtohl(b[4..8]); }
    assert b[8..12] == Htonl(|m.payload|) by { HtonlNtohl(b[8..12]); }
    assert b[0] == MAGIC / 256 && b[1] == MAGIC % 256;
    assert b[..Size(m)] == b[..4] + b[4..8] + b[8..12] + m.payload;
    assert b[..4] == [b[0], b[1], b[2], b[3]];
  }

  lemma HtonlNtohl(b: bytes)
    requires |b| == 4
    ensures Htonl(Ntohl(b)) == b
  {
    var b0: int, b1: int, b2: int := b[0], b[1], b[2];
    var n := Ntohl(b);
    assert n / 256 == b0 * 0x1_0000 + b1 * 256 + b2;
    assert n / 256 / 256 == b0 * 256 + b1;
  }

  // ---------- the reference scanner and the server's drain ----------

  datatype Scanned = Scanned(msgs: seq<Message>, skips: nat, rest: bytes)

  function Cons(m: Message, s: Scanned): Scanned {
    s.(msgs := [m] + s.msgs)
  }

  /** Deliver, skip one, or wait, until the stream has nothing more to give. */
  function Scan(b: bytes): (r: Scanned)
    ensures |r.rest| <= |b|
    ensures Parse(r.rest).NeedMore?
    decreases |b|
  {
    match Parse(b)
    case NeedMore => Scanned([], 0, b)
    case BadMagic => var s := Scan(b[1..]); s.(skips := s.skips + 1)
    case Parsed(m) => Cons(m, Scan(b[Size(m)..]))
  }

  /** One run of the inner loop of handleConnection: it ends at the first skipped byte. */
  function Drain(b: bytes): (r: Scanned)
    ensures |r.rest| <= |b|
    ensures r.skips <= 1
    ensures r.skips == 1 ==> |r.rest| < |b|
    decreases |b|
  {
    match Parse(b)
    case NeedMore => Scanned([], 0, b)
    case BadMagic => Scanned([], 1, b[1..])
    case Parsed(m) => Cons(m, Drain(b[Size(m)..]))
  }

  /** The messages and skips of a first part, put in front of the scan `s` of what it left. */
  function After(msgs: seq<Message>, skips: nat, s: Scanned): Scanned {
    Scanned(msgs + s.msgs, skips + s.skips, s.rest)
  }

  lemma ConsAfter(m: Message, d: Scanned, s: Scanned)
    ensures Cons(m, After(d.msgs, d.skips, s)) == After(Cons(m, d).msgs, d.skips, s)
  {}

  /** Scanning may be cut anywhere: the second half starts from what the first half left. */
  lemma {:induction false} ScanAppend(b: bytes, more: bytes)
    ensures var s := Scan(b); Scan(b + more) == After(s.msgs, s.skips, Scan(s.rest + more))
    decreases |b|
  {
    hide Parse;
    ParseStable(b, more);
    match Parse(b)
    case NeedMore =>
    case BadMagic =>
      ScanAppend(b[1..], more);
      assert (b + more)[1..] == b[1..] + more;
    case Parsed(m) =>
      ScanAppend(b[Size(m)..], more);
      assert (b + more)[Size(m)..] == b[Size(m)..] + more;
      var s := Scan(b[Size(m)..]);
      ConsAfter(m, s, Scan(s.rest + more));
  }

  /** A drain is an initial part of the scan; the scanner would go on from where it stopped. */
  lemma {:induction false} DrainThenScan(b: bytes)
    ensures var d := Drain(b); Scan(b) == After(d.msgs, d.skips, Scan(d.rest))
    ensures Drain(b).skips == 0 ==> Parse(Drain(b).rest).NeedMore?
    decreases |b|
  {
    hide Parse;
    match Parse(b)
    case NeedMore =>
    case BadMagic =>
    case Parsed(m) =>
      DrainThenScan(b[Size(m)..]);
      var d := Drain(b[Size(m)..]);
      ConsAfter(m, d, Scan(d.rest));
  }

  /** A drain cut in two: if the first part skipped nothing the second part goes on from what it
      left, otherwise the drain has already ended. */
  lemma {:induction false} DrainAppend(b: bytes, more: bytes)
    ensures var d := Drain(b);
      if d.skips == 0 then Drain(b + more) == After(d.msgs, 0, Drain(d.rest + more))
      else Drain(b + more).msgs == d.msgs && Drain(b + more).skips == 1
    decreases |b|
  {
    hide Parse;
    ParseStable(b, more);
    match Parse(b)
    case NeedMore =>
    case BadMagic =>
    case Parsed(m) =>
      DrainAppend(b[Size(m)..], more);
      assert (b + more)[Size(m)..] == b[Size(m)..] + more;
      var d := Drain(b[Size(m)..]);
      ConsAfter(m, d, Drain(d.rest + more));
  }

  function TotalSize(ms: seq<Message>): nat {
    if ms == [] then 0 else Size(ms[0]) + TotalSize(ms[1..])
  }

  /** No byte is lost: what a drain does not deliver or skip, it leaves unread. */
  lemma {:induction false} DrainConserves(b: bytes)
    ensures var d := Drain(b); var used := TotalSize(d.msgs) + d.skips;
      used + |d.rest| == |b| && d.rest == b[used..]
    decreases |b|
  {
    hide Parse;
    match Parse(b)
    case NeedMore =>
    case BadMagic =>
    case Parsed(m) =>
      var tail := b[Size(m)..];
      DrainConserves(tail);
      var d := Drain(tail);
      assert ([m] + d.msgs)[1..] == d.msgs;
      var used := TotalSize(d.msgs) + d.skips;
      assert tail[used..] == b[Size(m) + used..];
  }

  lemma {:induction false} TotalSizeAppend(a: seq<Message>, b: seq<Message>)
    ensures TotalSize(a + b) == TotalSize(a) + TotalSize(b)
  {
    if a == [] {
      assert a + b == b;
    } else {
      assert (a + b)[1..] == a[1..] + b;
      TotalSizeAppend(a[1..], b);
    }
  }

  // ---------- well-formed streams ----------

  /** How many frames of `ms` lie wholly within the first `k` bytes of their stream. */
  function Complete(ms: seq<Message>, k: nat): (n: nat)
    ensures n <= |ms|
  {
    if ms == [] || k < Size(ms[0]) then 0 else 1 + Complete(ms[1..], k - Size(ms[0]))
  }

  lemma {:induction false} StreamAppend(a: seq<Message>, b: seq<Message>)
    ensures Stream(a + b) == Stream(a) + Stream(b)
  {
    if a == [] {
      assert a + b == b;
    } else {
      assert (a + b)[1..] == a[1..] + b;
      StreamAppend(a[1..], b);
    }
  }

  lemma StreamOne(m: Message)
    ensures Stream([m]) == Frame(m)
  {}

  /** `b`, a cut of the stream of `ms`, has been scanned to its first `n` frames and `rest`. */
  ghost predicate CutAt(ms: seq<Message>, n: nat, b: bytes, rest: bytes) {
    && n <= |ms|
    && b == Stream(ms[..n]) + rest
    && (if n == |ms| then rest == [] else rest < Frame(ms[n]))
  }

  /** A cut of a well-formed stream scans to exactly its complete frames, skips nothing, and
      leaves a strict prefix of the next frame. */
  lemma {:induction false} ScanStream(ms: seq<Message>, b: bytes)
    requires AllWellFormed(ms)
    requires b <= Stream(ms)
    ensures var n := Complete(ms, |b|);
      Scan(b).msgs == ms[..n] && Scan(b).skips == 0 && CutAt(ms, n, b, Scan(b).rest)
  {
    hide Scan;
    hide CutAt;
    hide Frame;
    hide WellFormed;
    if ms == [] || |b| < Size(ms[0]) {
      ScanStart(ms, b);
    } else {
      var m, tail := ms[0], ms[1..];
      var rest := b[Size(m)..];
      SplitFrame(Frame(m), Stream(tail), b);
      ScanFrame(m, rest);
      ScanStream(tail, rest);
      CutCons(m, tail, Complete(tail, |rest|), rest, Scan(rest).rest);
      assert ms == [m] + tail;
    }
  }

  lemma ScanStart(ms: seq<Message>, b: bytes)
    requires AllWellFormed(ms) && b <= Stream(ms) && (ms == [] || |b| < Size(ms[0]))
    ensures Scan(b) == Scanned([], 0, b) && CutAt(ms, 0, b, b)
  {
    if ms != [] {
      assert b == Frame(ms[0])[..|b|];
      PrefixNeedsMore(ms[0], b);
    }
    assert Stream(ms[..0]) + b == b;
  }

  lemma SplitFrame(f: bytes, s: bytes, b: bytes)
    requires b <= f + s && |f| <= |b|
    ensures b == f + b[|f|..] && b[|f|..] <= s
  {}

  lemma CutCons(m: Message, tail: seq<Message>, n: nat, b: bytes, rest: bytes)
    requires CutAt(tail, n, b, rest)
    ensures ([m] + tail)[..n + 1] == [m] + tail[..n]
    ensures CutAt([m] + tail, n + 1, Frame(m) + b, rest)
  {}

  lemma ScanFrame(m: Message, rest: bytes)
    requires WellFormed(m)
    ensures Scan(Frame(m) + rest) == Cons(m, Scan(rest))
  {
    RoundTrip(m.header, m.payload, rest);
    assert (Frame(m) + rest)[Size(m)..] == rest;
  }

  lemma PrefixNeedsMore(m: Message, b: bytes)
    requires WellFormed(m) && b < Frame(m)
    ensures Parse(b).NeedMore?
  {}

  /** More bytes never take back a complete frame. */
  lemma {:induction false} CompleteAll(ms: seq<Message>)
    ensures Complete(ms, |Stream(ms)|) == |ms|
  {
    if ms != [] { CompleteAll(ms[1..]); }
  }
}
