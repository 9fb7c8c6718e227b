/** What each peer of a whole server gets: a server run, seen from one connection, is a run of that
    connection, so everything proved of single connections holds of each. */
module ServerAnswers {
  import opened Wire
  import opened Connection
  import opened ConnectionRuns
  import opened EchoServer
  import opened EventLoop
  import opened Pools
  import opened Server
  import opened ServerRuns

  /** The event that step `st` is to connection `c`, if any. */
  ghost function EventFor(s: Sys, st: Step, c: nat): seq<Event>
    requires CanDo(s, st)
  {
    if st.Resume? && st.outcome.OnConnection? && s.loop.pool.live[s.loop.cq[0].value].handle.conn == c
    then [st.outcome.event] else []
  }

  /** What connection `c` sees of a run of the server. */
  ghost function EventsOf(cfg: Config, s: Sys, steps: seq<Step>, c: nat): seq<Event>
    requires IsServerRun(cfg, s, steps)
    decreases |steps|
  {
    if steps == [] then [] else
    var init := steps[..|steps| - 1];
    EventsOf(cfg, s, init, c) + EventFor(ServerEnd(cfg, s, init), steps[|steps| - 1], c)
  }

  /** The connection as the accept loop opened it: what it was given is as large as all buffers. */
  function Opened(s: Sys, c: nat): Conn
    requires c < |s.acquired|
  {
    Start(if s.acquired[c].rbuf.Some? then Some(s.bufSize) else None,
          if s.acquired[c].wbuf.Some? then Some(s.bufSize) else None)
  }

  lemma ConnStep(cfg: Config, s: Sys, st: Step, c: nat)
    requires CanDo(s, st) && |s.acquired| == |s.conns|
    ensures var r, es := Do(cfg, s, st), EventFor(s, st, c);
      && |r.acquired| == |r.conns| >= |s.conns|
      && (c >= |s.conns| ==> es == [])
      && (c < |s.conns| ==>
            && Opened(r, c) == Opened(s, c)
            && (if es == [] then r.conns[c] == s.conns[c]
                else es == [es[0]] && Enabled(s.conns[c], es[0]) && r.conns[c] == Next(cfg, s.conns[c], es[0]).(out := [])))
      && (|s.conns| <= c < |r.conns| ==> r.conns[c] == Opened(r, c))
  {
    hide Next;
    hide Enabled;
    hide Dispatch;
    hide SuspendAll;
    hide Accept;
    hide OnEvent;
    if st.Resume? {
      var s1 := s.(loop := Dispatch(s.loop, st.result));
      match st.outcome
      case Accepted(registered) => AcceptOpens(s1, registered);
      case OnConnection(e) => OnEventMoves(cfg, s1, s.loop.pool.live[s.loop.cq[0].value].handle.conn, e);
      case _ =>
    }
  }

  lemma AcceptOpens(s: Sys, registered: bool)
    requires |s.acquired| == |s.conns|
    ensures var r, n := Accept(s, registered), |s.conns|;
      && |r.acquired| == |r.conns| == n + 1 && r.bufSize == s.bufSize && r.conns[n] == Opened(r, n)
      && forall c :: 0 <= c < n ==> r.conns[c] == s.conns[c] && r.acquired[c] == s.acquired[c]
  {
    hide SuspendAll;
    hide Acquire;
    hide AfterAcquire;
  }

  lemma OnEventMoves(cfg: Config, s: Sys, i: nat, e: Event)
    requires i < |s.conns| && i < |s.held| && Enabled(s.conns[i], e)
    ensures var r := OnEvent(cfg, s, i, e);
      r.acquired == s.acquired && r.bufSize == s.bufSize && r.conns == s.conns[i := Next(cfg, s.conns[i], e).(out := [])]
  {
    hide Next;
    hide Enabled;
    hide SuspendAll;
    hide Return;
  }

  /** Seen from one connection, every run of the server is a run of that connection, with the
      buffers it was given; nothing another connection does changes it. */
  lemma {:induction false} Projection(cfg: Config, bufCount: nat, bufSize: nat, fileCount: nat, steps: seq<Step>, c: nat)
    requires IsServerRun(cfg, Init(bufCount, bufSize, fileCount), steps)
    ensures var start := Init(bufCount, bufSize, fileCount); var s := ServerEnd(cfg, start, steps);
      && |s.acquired| == |s.conns|
      && (c >= |s.conns| ==> EventsOf(cfg, start, steps, c) == [])
      && (c < |s.conns| ==>
            && IsRun(cfg, Opened(s, c), EventsOf(cfg, start, steps, c))
            && s.conns[c] == End(cfg, Opened(s, c), EventsOf(cfg, start, steps, c)))
    decreases |steps|
  {
    hide Do;
    hide CanDo;
    hide Next;
    hide Enabled;
    hide IsRun;
    hide End;
    hide EventFor;
    hide Opened;
    if steps != [] {
      var start := Init(bufCount, bufSize, fileCount);
      var init, st := steps[..|steps| - 1], steps[|steps| - 1];
      Projection(cfg, bufCount, bufSize, fileCount, init, c);
      var s := ServerEnd(cfg, start, init);
      ConnStep(cfg, s, st, c);
      var before, es := EventsOf(cfg, start, init, c), EventFor(s, st, c);
      if c < |s.conns| {
        if es != [] { RunStep(cfg, Opened(s, c), before, es[0]); } else { assert before + es == before; }
      } else {
        assert before + es == [];
        if c < |Do(cfg, s, st).conns| { EmptyRun(cfg, Opened(Do(cfg, s, st), c)); }
      }
    }
  }

  /** Each connection of a synchronous server answers its own request stream, whatever the other
      connections do: the wire is a prefix of its responses in request order, and if none of its own
      writes failed and none is outstanding, the responses to all complete requests it was sent. */
  lemma EveryConnectionAnswers(
      cfg: Config, bufCount: nat, bufSize: nat, fileCount: nat, steps: seq<Step>, c: nat, ms: seq<Message>)
    requires !cfg.async && IsServerRun(cfg, Init(bufCount, bufSize, fileCount), steps)
    requires c < |ServerEnd(cfg, Init(bufCount, bufSize, fileCount), steps).conns|
    requires AllWellFormed(ms) && BytesIn(EventsOf(cfg, Init(bufCount, bufSize, fileCount), steps, c)) <= Stream(ms)
    ensures var start := Init(bufCount, bufSize, fileCount);
      var es, o := EventsOf(cfg, start, steps, c), ServerEnd(cfg, start, steps).conns[c].outb;
      && o.wire <= Stream(Replies(cfg, ms))
      && (NoWriteFailed(es) && AllReportable(Replies(cfg, ms)) && !o.writer.Writing? ==>
            o.wire == Stream(Replies(cfg, ms[..Wire.Complete(ms, |BytesIn(es)|)])))
  {
    hide IsServerRun;
    hide ServerEnd;
    hide EventsOf;
    hide IsRun;
    hide End;
    hide BytesIn;
    hide Replies;
    hide Stream;
    var start := Init(bufCount, bufSize, fileCount);
    Projection(cfg, bufCount, bufSize, fileCount, steps, c);
    var s := ServerEnd(cfg, start, steps);
    var rcap, wcap := Capacity(s.acquired[c].rbuf, s.bufSize), Capacity(s.acquired[c].wbuf, s.bufSize);
    SyncServer(cfg, rcap, wcap, EventsOf(cfg, start, steps, c), ms);
  }

  /** A shutdown that ran to its end answers: when nothing is in flight any more, a connection none
      of whose writes failed has been sent the responses to all its complete requests. */
  lemma CleanAnswers(
      cfg: Config, bufCount: nat, bufSize: nat, fileCount: nat, steps: seq<Step>, c: nat, ms: seq<Message>)
    requires !cfg.async && IsServerRun(cfg, Init(bufCount, bufSize, fileCount), steps)
    requires ServerEnd(cfg, Init(bufCount, bufSize, fileCount), steps).loop.pool.inFlight == 0
    requires c < |ServerEnd(cfg, Init(bufCount, bufSize, fileCount), steps).conns|
    requires AllWellFormed(ms) && AllReportable(Replies(cfg, ms))
    requires var es := EventsOf(cfg, Init(bufCount, bufSize, fileCount), steps, c);
      NoWriteFailed(es) && BytesIn(es) <= Stream(ms)
    ensures var start := Init(bufCount, bufSize, fileCount);
      ServerEnd(cfg, start, steps).conns[c].outb.wire ==
      Stream(Replies(cfg, ms[..Wire.Complete(ms, |BytesIn(EventsOf(cfg, start, steps, c))|)]))
  {
    hide IsServerRun;
    hide ServerEnd;
    hide EventsOf;
    hide Inv;
    hide BytesIn;
    hide Replies;
    hide Stream;
    var start := Init(bufCount, bufSize, fileCount);
    InitInv(cfg, bufCount, bufSize, fileCount);
    ServerRunInv(cfg, start, steps);
    CleanShutdown(cfg, ServerEnd(cfg, start, steps));
    EveryConnectionAnswers(cfg, bufCount, bufSize, fileCount, steps, c, ms);
  }
}
