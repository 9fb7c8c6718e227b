/** The pipelining client's byte side: sending everything, and cutting frames out of what recv
    brings with a growing staging vector instead of the server's buffer. */
module ClientFraming {
  import opened Wire
  import opened Totals

  /** Any way a connected socket may hand over its bytes: non-empty pieces, then the end. */
  function Joined(chunks: seq<bytes>): bytes {
    if chunks == [] then [] else chunks[0] + Joined(chunks[1..])
  }

  ghost predicate NonEmpty(chunks: seq<bytes>) {
    forall i :: 0 <= i < |chunks| ==> chunks[i] != []
  }

  /** SendAll over a kernel whose i-th send of n bytes has the result `kernel(i, n)`. Each send offers
      all that is left; it fails only where the kernel did, and then what was sent is what the
      sends before took. */
  method SendAll(data: bytes, kernel: (nat, nat) -> int) returns (ok: bool, sent: bytes, results: seq<int>)
    requires forall i, n :: kernel(i, n) <= n
    ensures sent <= data && |sent| == Taken(results) && (ok <==> sent == data)
    ensures ResultsOf(|data|, kernel, results) && forall i :: 0 <= i < |results| - 1 ==> results[i] > 0
    ensures !ok ==> results != [] && results[|results| - 1] <= 0
    ensures (forall i, n :: n > 0 ==> kernel(i, n) > 0) ==> ok
  {
    hide Taken;
    hide ResultsOf;
    var from, len := 0, |data|;
    results := [];
    NoResults(|data|, kernel);
    while len > 0
      invariant 0 <= len && from + len == |data| && from == Taken(results)
      invariant ResultsOf(|data|, kernel, results) && forall i :: 0 <= i < |results| ==> results[i] > 0
      decreases len
    {
      var n := kernel(|results|, len);
      TakenPush(results, n);
      NextResult(|data|, kernel, results);
      results := results + [n];
      if n <= 0 { return false, data[..from], results; }
      from, len := from + n, len - n;
    }
    return true, data[..from], results;
  }

  /** The i-th send offers all of `total` bytes but what the sends before it took. */
  ghost predicate ResultsOf(total: nat, kernel: (nat, nat) -> int, results: seq<int>) {
    forall i :: 0 <= i < |results| ==> Taken(results[..i]) < total && results[i] == kernel(i, total - Taken(results[..i]))
  }

  lemma NoResults(total: nat, kernel: (nat, nat) -> int)
    ensures ResultsOf(total, kernel, []) && Taken([]) == 0
  {}

  lemma NextResult(total: nat, kernel: (nat, nat) -> int, results: seq<int>)
    requires ResultsOf(total, kernel, results) && Taken(results) < total
    ensures ResultsOf(total, kernel, results + [kernel(|results|, total - Taken(results))])
  {
    hide Taken;
    TakenPush(results, kernel(|results|, total - Taken(results)));
    assert results[..|results|] == results;
  }

  /** Receive until `need` bytes are staged; false if the connection ends first. It never waits for
      a piece it does not need. */
  method RecvExact(chunks: seq<bytes>, staged: bytes, need: nat) returns (ok: bool, left: seq<bytes>, buf: bytes)
    requires NonEmpty(chunks)
    ensures NonEmpty(left) && buf + Joined(left) == staged + Joined(chunks) && staged <= buf
    ensures ok <==> |buf| >= need
    ensures !ok ==> left == []
    ensures NoneTooMany(chunks, left, |buf|, need) && (left == chunks ==> buf == staged)
  {
    left, buf := chunks, staged;
    ghost var k := 0;
    while |buf| < need
      invariant NonEmpty(left) && buf + Joined(left) == staged + Joined(chunks) && staged <= buf
      invariant k <= |chunks| && left == chunks[k..] && (k > 0 ==> |buf| - |chunks[k - 1]| < need)
      decreases |left|
    {
      if left == [] { return false, left, buf; }
      assert buf + (left[0] + Joined(left[1..])) == (buf + left[0]) + Joined(left[1..]);
      buf, left := buf + left[0], left[1..];
      k := k + 1;
    }
    ok := true;
  }

  /** `left` is what remains of `chunks`, and without the last piece taken fewer than `need` of the
      `have` bytes would have been there. */
  ghost predicate NoneTooMany(chunks: seq<bytes>, left: seq<bytes>, have: nat, need: nat) {
    && |left| <= |chunks| && left == chunks[|chunks| - |left|..]
    && (|left| < |chunks| ==> have - |chunks[|chunks| - |left| - 1]| < need)
  }

  datatype Received = Got(header: Header) | Ended | Garbage

  /** One turn of the receiver: it takes the frame that the server's parser would take from the
      same stream, and leaves the same bytes behind, whatever the chunking; it fails where the
      parser would wait for ever or skip. */
  method ReceiveFrame(chunks: seq<bytes>, staged: bytes) returns (r: Received, left: seq<bytes>, buf: bytes)
    requires NonEmpty(chunks)
    ensures NonEmpty(left)
    ensures var s := staged + Joined(chunks);
      match Parse(s)
      case Parsed(m) =>
        r == Got(m.header) && buf + Joined(left) == s[Size(m)..] && NoneTooMany(chunks, left, Size(m) + |buf|, Size(m))
      case BadMagic => r == Garbage
      case NeedMore => r == Ended
  {
    hide Parse;
    hide DecodeHeader;
    hide Joined;
    hide NoneTooMany;
    ghost var s := staged + Joined(chunks);
    var ok;
    ok, left, buf := RecvExact(chunks, staged, HEADER_SIZE);
    ghost var first, have := left, |buf|;
    if !ok {
      EndsShort(buf, s);
      return Ended, left, buf;
    }
    var header := DecodeHeader(buf);
    HeaderDecides(buf, s);
    buf := buf[HEADER_SIZE..];
    if header.magic != MAGIC { return Garbage, left, buf; }
    assert buf + Joined(left) == s[HEADER_SIZE..];
    ok, left, buf := RecvExact(left, buf, header.payloadLen);
    if !ok {
      EndsShort(buf, s[HEADER_SIZE..]);
      return Ended, left, buf;
    }
    TwoReceives(chunks, first, left, have, |buf|, header.payloadLen);
    DropFront(s, buf, Joined(left), header.payloadLen);
    buf := buf[header.payloadLen..];
    r := Got(header);
  }

  /** The header of a stream, once it is there, decides everything but whether the payload is. */
  lemma HeaderDecides(b: bytes, s: bytes)
    requires b <= s && |b| >= HEADER_SIZE
    ensures var h := DecodeHeader(b);
      if h.magic != MAGIC then Parse(s) == BadMagic
      else if |s| < HEADER_SIZE + h.payloadLen then Parse(s) == NeedMore
      else Parse(s).Parsed? && Parse(s).msg.header == h && Size(Parse(s).msg) == HEADER_SIZE + h.payloadLen
  {
    HeaderOfPrefix(b, s[|b|..]);
    assert b + s[|b|..] == s;
  }

  lemma EndsShort(buf: bytes, s: bytes)
    requires buf + Joined([]) == s
    ensures |s| == |buf|
    ensures |s| < HEADER_SIZE ==> Parse(s) == NeedMore
  {}

  lemma DropFront(s: bytes, buf: bytes, more: bytes, n: nat)
    requires |s| >= HEADER_SIZE && buf + more == s[HEADER_SIZE..] && n <= |buf|
    ensures buf[n..] + more == s[HEADER_SIZE + n..]
  {
    assert s[HEADER_SIZE..][n..] == s[HEADER_SIZE + n..];
  }

  lemma TwoReceives(chunks: seq<bytes>, first: seq<bytes>, left: seq<bytes>, have: nat, staged: nat, payload: nat)
    requires NoneTooMany(chunks, first, have, HEADER_SIZE) && NoneTooMany(first, left, staged, payload)
    requires left == first ==> staged == have - HEADER_SIZE
    ensures NoneTooMany(chunks, left, HEADER_SIZE + staged, HEADER_SIZE + payload)
  {}

  function HeadersOf(ms: seq<Message>): seq<Header> {
    seq(|ms|, i requires 0 <= i < |ms| => ms[i].header)
  }

  /** The receiver thread over a well-formed stream, under any chunking: the headers it reads are
      those of the server's scanner, frame by frame, and what it has not taken is the rest. */
  method ReceiveAll(chunks: seq<bytes>, ms: seq<Message>, count: nat) returns (headers: seq<Header>, left: seq<bytes>, buf: bytes)
    requires NonEmpty(chunks) && AllWellFormed(ms) && Joined(chunks) == Stream(ms) && count <= |ms|
    ensures Scan(Joined(chunks)).msgs == ms && headers == HeadersOf(Scan(Joined(chunks)).msgs[..count])
    ensures buf + Joined(left) == Stream(ms[count..])
  {
    hide Parse;
    hide Frame;
    headers, left, buf := [], chunks, [];
    StartOf(ms, chunks);
    for i := 0 to count
      invariant NonEmpty(left) && buf + Joined(left) == Stream(ms[i..])
      invariant headers == HeadersOf(ms[..i])
    {
      FirstFrame(ms[i..]);
      var r;
      r, left, buf := ReceiveFrame(left, buf);
      headers := headers + [r.header];
      assert ms[i..][1..] == ms[i + 1..];
      assert ms[..i + 1] == ms[..i] + [ms[i]];
    }
    ScanStream(ms, Stream(ms));
    CompleteAll(ms);
    assert ms[..|ms|] == ms;
  }

  lemma StartOf(ms: seq<Message>, chunks: seq<bytes>)
    ensures [] + Joined(chunks) == Joined(chunks) && ms[0..] == ms && HeadersOf(ms[..0]) == []
  {}

  lemma FirstFrame(ms: seq<Message>)
    requires ms != [] && AllWellFormed(ms[..1])
    ensures Parse(Stream(ms)) == Parsed(ms[0]) && Stream(ms)[Size(ms[0])..] == Stream(ms[1..])
  {
    var m := ms[0];
    assert m in ms[..1];
    RoundTrip(m.header, m.payload, Stream(ms[1..]));
    assert (Frame(m) + Stream(ms[1..]))[Size(m)..] == Stream(ms[1..]);
  }
}
