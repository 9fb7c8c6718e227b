/** What holds over every run of a server thread, and why its shutdown drain ends. */
module ServerRuns {
  import opened Wire
  import opened Connection
  import opened EventLoop
  import opened Pools
  import opened Totals
  import opened Server

  ghost predicate IsServerRun(cfg: Config, s: Sys, steps: seq<Step>)
    decreases |steps|, 0
  {
    steps == [] ||
    (IsServerRun(cfg, s, steps[..|steps| - 1]) && CanDo(ServerEnd(cfg, s, steps[..|steps| - 1]), steps[|steps| - 1]))
  }

  ghost function ServerEnd(cfg: Config, s: Sys, steps: seq<Step>): Sys
    requires IsServerRun(cfg, s, steps)
    decreases |steps|, 1
  {
    if steps == [] then s else Do(cfg, ServerEnd(cfg, s, steps[..|steps| - 1]), steps[|steps| - 1])
  }

  lemma {:induction false} ServerRunInv(cfg: Config, s: Sys, steps: seq<Step>)
    requires Inv(cfg, s) && IsServerRun(cfg, s, steps)
    ensures Inv(cfg, ServerEnd(cfg, s, steps))
    decreases |steps|
  {
    hide Inv;
    hide Do;
    if steps != [] {
      ServerRunInv(cfg, s, steps[..|steps| - 1]);
      DoKeeps(cfg, ServerEnd(cfg, s, steps[..|steps| - 1]), steps[|steps| - 1]);
    }
  }

  /** A state some run from a freshly started server reaches. */
  ghost predicate Reachable(cfg: Config, s: Sys) {
    exists bufCount: nat, bufSize: nat, fileCount: nat, steps: seq<Step> ::
      IsServerRun(cfg, Init(bufCount, bufSize, fileCount), steps) &&
      s == ServerEnd(cfg, Init(bufCount, bufSize, fileCount), steps)
  }

  lemma ReachableInv(cfg: Config, s: Sys)
    requires Reachable(cfg, s)
    ensures Inv(cfg, s)
  {
    var bufCount: nat, bufSize: nat, fileCount: nat, steps: seq<Step> :|
      IsServerRun(cfg, Init(bufCount, bufSize, fileCount), steps) &&
      s == ServerEnd(cfg, Init(bufCount, bufSize, fileCount), steps);
    InitInv(cfg, bufCount, bufSize, fileCount);
    ServerRunInv(cfg, Init(bufCount, bufSize, fileCount), steps);
  }

  // ---------- request nodes ----------

  /** In every reachable state: the free list has no duplicates and shares no node with pending
      operations or unprocessed completions, which are themselves distinct; the counter is the
      number of submissions not yet dispatched and of coroutines suspended on I/O. */
  lemma RequestNodesSafe(cfg: Config, s: Sys)
    requires Reachable(cfg, s)
    ensures var l := s.loop;
      && Distinct(l.pool.free)
      && (forall n :: n in l.pool.free ==> n !in l.pool.live && Some(n) !in l.cq)
      && (forall i :: 0 <= i < |l.cq| && l.cq[i].Some? ==> l.cq[i].value in l.pool.live)
      && (forall i, j :: 0 <= i < j < |l.cq| && l.cq[i].Some? ==> l.cq[i] != l.cq[j])
      && l.pool.inFlight == |l.pool.live| == |l.awaits| == |l.submitted| - |l.log|
      && (forall h :: h in l.awaits <==> Waiting(s, h))
  {
    ReachableInv(cfg, s);
    hide Waiting;
  }

  /** Every result delivered in a run went to the coroutine that submitted for it, and no
      submission was delivered twice. */
  lemma DeliveredExactlyOnce(cfg: Config, s: Sys)
    requires Reachable(cfg, s)
    ensures var l := s.loop;
      && (forall i :: 0 <= i < |l.log| ==> l.log[i].slot < |l.submitted| && l.submitted[l.log[i].slot] == l.log[i].handle)
      && (forall i, j :: 0 <= i < j < |l.log| ==> l.log[i].slot != l.log[j].slot)
      && (forall i, n :: 0 <= i < |l.log| && n in l.pool.live ==> l.log[i].slot != l.pool.live[n].slot)
  {
    ReachableInv(cfg, s);
    hide Waiting;
  }

  /** A completion writes the slot that its coroutine is suspended on at that moment, even though
      the node may be reused at once by what that coroutine submits next. */
  lemma ResumesItsOwnSuspension(cfg: Config, s: Sys, n: nat, result: int, outcome: Outcome)
    requires Reachable(cfg, s) && CanDo(s, Resume(result, outcome)) && s.loop.cq[0] == Some(n)
    ensures var susp := s.loop.pool.live[n];
      && Waiting(s, susp.handle) && susp.handle in s.loop.awaits && s.loop.awaits[susp.handle] == susp.slot
      && Delivery(susp.slot, susp.handle, result) !in s.loop.log
      && Do(cfg, s, Resume(result, outcome)).loop.log == s.loop.log + [Delivery(susp.slot, susp.handle, result)]
      && Inv(cfg, Do(cfg, s, Resume(result, outcome)))
  {
    ReachableInv(cfg, s);
    DispatchKeeps(s.loop, result);
    DoKeeps(cfg, s, Resume(result, outcome));
    var l := Dispatch(s.loop, result);
    hide Inv;
    hide LoopInv;
    assert WaitingInv(s);
    LogOf(cfg, s, result, outcome);
  }

  lemma LogOf(cfg: Config, s: Sys, result: int, outcome: Outcome)
    requires CanDo(s, Resume(result, outcome))
    ensures Do(cfg, s, Resume(result, outcome)).loop.log == Dispatch(s.loop, result).log
  {
    hide Dispatch;
    hide Next;
    hide Waits;
    var l := Dispatch(s.loop, result);
    if outcome.OnConnection? {
      var c := s.loop.pool.live[s.loop.cq[0].value].handle.conn;
      SuspendAllLog(l, c, Next(cfg, s.conns[c], outcome.event).out);
    } else if outcome.Accepted? {
      SuspendAllLog(l, |s.conns|, [ReadOp]);
    }
  }

  lemma {:induction false} SuspendAllLog(l: Loop<Handle>, c: nat, ops: seq<Op>)
    ensures SuspendAll(l, c, ops).log == l.log
    decreases |ops|
  {
    if ops != [] { SuspendAllLog(Suspend(l, Of(c, ops[0])), c, ops[1..]); }
  }

  // ---------- resources ----------

  /** The fixed buffer and file slot an outstanding operation targets are on no free list and held
      by no other connection. */
  lemma OutstandingTargetsAreOwned(cfg: Config, s: Sys, n: nat, x: nat)
    requires Reachable(cfg, s)
    requires n in s.loop.pool.live && s.loop.pool.live[n].handle.Of? && !s.loop.pool.live[n].handle.op.SleepOp?
    ensures var h := s.loop.pool.live[n].handle;
      && h.conn < |s.conns| && Alive(s.conns[h.conn]) && |s.acquired| == |s.held| == |s.conns|
      && (Target(s.acquired[h.conn], h.op) == Some(x) ==>
            && x < s.pools.bufCount && x !in s.pools.bufFree
            && forall c :: 0 <= c < |s.held| && c != h.conn ==> s.held[c].rbuf != Some(x) && s.held[c].wbuf != Some(x))
      && (s.acquired[h.conn].file == Some(x) ==>
            && x < s.pools.fileCount && x !in s.pools.fileFree
            && forall c :: 0 <= c < |s.held| && c != h.conn ==> s.held[c].file != Some(x))
  {
    ReachableInv(cfg, s);
    var h := s.loop.pool.live[n].handle;
    assert h in s.loop.awaits;
    hide LoopInv;
    hide ConnInv;
    hide Conserved;
    assert Waiting(s, h);
    assert HeldBy(s, h.conn);
    HeldExclusively(s.pools, s.held, h.conn, x);
  }

  function Target(h: Held, op: Op): Option<nat> {
    if op.ReadOp? then h.rbuf else h.wbuf
  }

  /** A connection holds what it was given for exactly as long as its reader or writer is there. */
  lemma HeldWhileInUse(cfg: Config, s: Sys, c: nat)
    requires Reachable(cfg, s) && c < |s.conns|
    ensures |s.held| == |s.acquired| == |s.conns|
    ensures s.held[c] == if s.conns[c].reading || !s.conns[c].outb.writer.Exited? then s.acquired[c] else NOTHING
  {
    ReachableInv(cfg, s);
    hide LoopInv;
    hide ConnInv;
    hide Conserved;
    assert HeldBy(s, c);
  }

  /** Accepting a connection gives it what there is: with one free buffer a fixed read buffer, with
      two a fixed write buffer as well, with a free slot that the kernel takes a fixed file. The
      acceptor and the new reader then wait for the kernel. */
  lemma AcceptGivesWhatThereIs(cfg: Config, s: Sys, result: int, registered: bool)
    requires Reachable(cfg, s) && CanDo(s, Resume(result, Accepted(registered)))
    ensures var r, n := Do(cfg, s, Resume(result, Accepted(registered))), |s.conns|;
      && |r.conns| == |r.held| == n + 1
      && (r.held[n].rbuf.Some? <==> |s.pools.bufFree| >= 1) && (r.held[n].wbuf.Some? <==> |s.pools.bufFree| >= 2)
      && (r.held[n].file.Some? <==> registered && s.pools.fileFree != [])
      && r.conns[n].inb.cap == (if |s.pools.bufFree| >= 1 then Some(s.bufSize) else None)
      && r.conns[n].wcap == (if |s.pools.bufFree| >= 2 then Some(s.bufSize) else None)
      && Acceptor in r.loop.awaits && Of(n, ReadOp) in r.loop.awaits
  {
    hide LoopInv;
    hide ConnInv;
    hide Conserved;
    hide Dispatch;
    hide SuspendAll;
    hide Acquire;
    hide AfterAcquire;
    ReachableInv(cfg, s);
    DoKeeps(cfg, s, Resume(result, Accepted(registered)));
    AcquireTakes(s.pools, registered);
    var r := Do(cfg, s, Resume(result, Accepted(registered)));
    assert Waiting(r, Acceptor) && Waiting(r, Of(|s.conns|, ReadOp));
  }

  predicate FailedAccept(st: Step) {
    st.Resume? && st.outcome.AcceptFailed?
  }

  function Accepts(steps: seq<Step>): nat {
    if steps == [] then 0 else
    Accepts(steps[..|steps| - 1]) + if steps[|steps| - 1].Resume? && steps[|steps| - 1].outcome.Accepted? then 1 else 0
  }

  /** The server goes on accepting until an accept fails, opens one connection for each that succeeds,
      and its pools keep the size they were made with. */
  lemma {:induction false} KeepsAccepting(cfg: Config, bufCount: nat, bufSize: nat, fileCount: nat, steps: seq<Step>)
    requires IsServerRun(cfg, Init(bufCount, bufSize, fileCount), steps)
    ensures var s := ServerEnd(cfg, Init(bufCount, bufSize, fileCount), steps);
      && (s.accepting <==> forall k :: 0 <= k < |steps| ==> !FailedAccept(steps[k]))
      && |s.conns| == Accepts(steps)
      && s.bufSize == bufSize && s.pools.bufCount == bufCount && s.pools.fileCount == fileCount
    decreases |steps|
  {
    hide Do;
    hide CanDo;
    hide Init;
    hide Inv;
    hide FailedAccept;
    if steps == [] {
      StartsAccepting(bufCount, bufSize, fileCount);
    } else {
      var init, st := steps[..|steps| - 1], steps[|steps| - 1];
      KeepsAccepting(cfg, bufCount, bufSize, fileCount, init);
      InitInv(cfg, bufCount, bufSize, fileCount);
      ServerRunInv(cfg, Init(bufCount, bufSize, fileCount), init);
      AcceptingStep(cfg, ServerEnd(cfg, Init(bufCount, bufSize, fileCount), init), st);
      assert forall k :: 0 <= k < |init| ==> init[k] == steps[k];
    }
  }

  lemma StartsAccepting(bufCount: nat, bufSize: nat, fileCount: nat)
    ensures var s := Init(bufCount, bufSize, fileCount);
      && s.accepting && s.conns == [] && s.bufSize == bufSize
      && s.pools.bufCount == bufCount && s.pools.fileCount == fileCount
  {}

  lemma AcceptingStep(cfg: Config, s: Sys, st: Step)
    requires Inv(cfg, s) && CanDo(s, st)
    ensures var r := Do(cfg, s, st);
      && (r.accepting <==> s.accepting && !FailedAccept(st))
      && |r.conns| == |s.conns| + (if st.Resume? && st.outcome.Accepted? then 1 else 0)
      && r.bufSize == s.bufSize && r.pools.bufCount == s.pools.bufCount && r.pools.fileCount == s.pools.fileCount
  {
    hide LoopInv;
    hide ConnInv;
    hide HeldInv;
    hide SuspendAll;
    hide Acquire;
    hide Next;
    hide Enabled;
    if st.Resume? && st.outcome.Accepted? { DispatchAboutToRun(cfg, s, st.result); }
    hide Dispatch;
  }

  // ---------- shutdown ----------

  /** No coroutine is left and everything is back where it came from. */
  ghost predicate CleanlyStopped(s: Sys) {
    && !s.accepting && |s.held| == |s.conns|
    && (forall c :: 0 <= c < |s.conns| ==>
          !s.conns[c].reading && s.conns[c].sleeping == map[] && s.conns[c].outb.writer.Exited? && s.held[c] == NOTHING)
    && multiset(s.pools.bufFree) == multiset(Indices(s.pools.bufCount))
    && multiset(s.pools.fileFree) == multiset(Indices(s.pools.fileCount))
    && (forall n: nat :: n < s.loop.total ==> n in s.loop.pool.free)
    && |s.loop.log| == |s.loop.submitted|
  }

  /** When the counter reaches zero every coroutine has run to its end, not only those that waited
      for I/O, and every buffer, file slot and request node is free again. */
  lemma CleanShutdown(cfg: Config, s: Sys)
    requires Inv(cfg, s) && s.loop.pool.inFlight == 0
    ensures CleanlyStopped(s)
  {
    hide LoopInv;
    hide Conserved;
    hide InboxInv;
    hide WorkInv;
    IdleLoop(s.loop);
    assert forall h :: !Waiting(s, h);
    forall c | 0 <= c < |s.conns|
      ensures !s.conns[c].reading && s.conns[c].sleeping == map[] && s.conns[c].outb.writer.Exited? && s.held[c] == NOTHING
    {
      assert HeldBy(s, c);
      NobodyWaits(cfg, s.conns[c]) by {
        forall op ensures !Waits(s.conns[c], op) { assert !Waiting(s, Of(c, op)); }
      }
    }
    assert !Waiting(s, Acceptor);
    NothingIsHeld(s.held);
    AllFree(s.pools, s.held);
  }

  /** A connection with nobody waiting for I/O has nobody waiting for the queue either. */
  lemma NobodyWaits(cfg: Config, c: Conn)
    requires ConnInv(cfg, c) && forall op :: !Waits(c, op)
    ensures !c.reading && c.sleeping == map[] && c.outb.writer.Exited? && !Alive(c)
  {
    hide InboxInv;
    hide WorkInv;
    assert !Waits(c, ReadOp) && !Waits(c, WriteOp);
    forall i: nat ensures i !in c.sleeping { assert !Waits(c, SleepOp(i)); }
    NoSleepers(c.sleeping);
  }

  lemma NoSleepers(m: map<nat, Message>)
    requires forall i :: i !in m
    ensures m == map[]
  {}

  lemma {:induction false} NothingIsHeld(hs: seq<Held>)
    requires forall i :: 0 <= i < |hs| ==> hs[i] == NOTHING
    ensures Union(hs, BufsOf) == Union(hs, FilesOf) == multiset{}
  {
    if hs != [] { NothingIsHeld(hs[..|hs| - 1]); NothingHeld(); }
  }

  lemma AllFree(p: Pools, hs: seq<Held>)
    requires Conserved(p, hs) && Union(hs, BufsOf) == Union(hs, FilesOf) == multiset{}
    ensures multiset(p.bufFree) == multiset(Indices(p.bufCount)) && multiset(p.fileFree) == multiset(Indices(p.fileCount))
  {}

  /** Dispatches that resumed nobody. */
  function Untagged(steps: seq<Step>): nat {
    if steps == [] then 0 else
    Untagged(steps[..|steps| - 1]) + if steps[|steps| - 1].Resume? && steps[|steps| - 1].outcome.Nothing? then 1 else 0
  }

  /** The drain asks once for cancellation: the request has no waiter, completes at most once, not
      before the drain has begun, and its completion is the only one that resumes nobody. */
  lemma {:induction false} CancelsOnce(cfg: Config, bufCount: nat, bufSize: nat, fileCount: nat, steps: seq<Step>)
    requires IsServerRun(cfg, Init(bufCount, bufSize, fileCount), steps)
    ensures var s := ServerEnd(cfg, Init(bufCount, bufSize, fileCount), steps);
      && (s.phase.Running? <==> BeginDrain !in steps)
      && (s.phase == Draining(true) <==> CompleteCancel in steps)
      && multiset(s.loop.cq)[None] + Untagged(steps) == (if CompleteCancel in steps then 1 else 0)
    decreases |steps|
  {
    hide Do;
    hide CanDo;
    hide Init;
    if steps == [] {
      StartsRunning(bufCount, bufSize, fileCount);
    } else {
      var init, st := steps[..|steps| - 1], steps[|steps| - 1];
      CancelsOnce(cfg, bufCount, bufSize, fileCount, init);
      PhaseStep(cfg, ServerEnd(cfg, Init(bufCount, bufSize, fileCount), init), st);
      assert forall x :: x in steps <==> (x in init || x == st);
    }
  }

  lemma StartsRunning(bufCount: nat, bufSize: nat, fileCount: nat)
    ensures var s := Init(bufCount, bufSize, fileCount); s.phase.Running? && s.loop.cq == []
  {}

  lemma PhaseStep(cfg: Config, s: Sys, st: Step)
    requires CanDo(s, st)
    ensures var r := Do(cfg, s, st);
      && (r.phase.Running? <==> s.phase.Running? && !st.BeginDrain?)
      && (r.phase == Draining(true) <==> s.phase == Draining(true) || st.CompleteCancel?)
      && (st.CompleteCancel? ==> s.phase == Draining(false))
      && multiset(r.loop.cq)[None] + (if st.Resume? && st.outcome.Nothing? then 1 else 0) ==
         multiset(s.loop.cq)[None] + (if st.CompleteCancel? then 1 else 0)
  {
    hide Accept;
    hide OnEvent;
    hide Enabled;
    hide Dispatch;
    if st.Resume? {
      QueueAfter(cfg, s, st.result, st.outcome);
      hide Do;
      assert s.loop.cq == [s.loop.cq[0]] + s.loop.cq[1..];
    }
  }

  lemma QueueAfter(cfg: Config, s: Sys, result: int, outcome: Outcome)
    requires CanDo(s, Resume(result, outcome))
    ensures var r := Do(cfg, s, Resume(result, outcome)); r.loop.cq == s.loop.cq[1..] && r.phase == s.phase
  {
    hide Next;
    hide Waits;
    hide SuspendAll;
    hide Acquire;
    hide AfterAcquire;
    hide Return;
    var l := Dispatch(s.loop, result);
    if outcome.OnConnection? {
      var c := s.loop.pool.live[s.loop.cq[0].value].handle.conn;
      SuspendAllQueue(l, c, Next(cfg, s.conns[c], outcome.event).out);
    } else if outcome.Accepted? {
      SuspendAllQueue(l, |s.conns|, [ReadOp]);
    }
  }

  lemma {:induction false} SuspendAllQueue(l: Loop<Handle>, c: nat, ops: seq<Op>)
    ensures SuspendAll(l, c, ops).cq == l.cq
    decreases |ops|
  {
    if ops != [] { SuspendAllQueue(Suspend(l, Of(c, ops[0])), c, ops[1..]); }
  }

  // ---------- the drain ends ----------

  /** What the peers can still do: a finite amount of input and of new connections. */
  datatype Peers = Peers(bytesLeft: nat, connectsLeft: nat)

  predicate Affordable(p: Peers, st: Step) {
    st.Resume? ==>
      && (st.outcome.Accepted? ==> p.connectsLeft > 0)
      && (st.outcome.OnConnection? && st.outcome.event.ReadDone? ==> |st.outcome.event.data| <= p.bytesLeft)
  }

  function Spend(p: Peers, st: Step): Peers
    requires Affordable(p, st)
  {
    if st.Resume? && st.outcome.Accepted? then p.(connectsLeft := p.connectsLeft - 1)
    else if st.Resume? && st.outcome.OnConnection? && st.outcome.event.ReadDone? then
      p.(bytesLeft := p.bytesLeft - |st.outcome.event.data|)
    else p
  }

  function Readers(c: Conn): nat { if c.reading then 1 else 0 }

  function Sleepers(c: Conn): nat { |c.sleeping| }

  function Lengths(fs: seq<bytes>): nat {
    if fs == [] then 0 else |fs[0]| + Lengths(fs[1..])
  }

  /** Bytes a live writer has still to get rid of, and itself. */
  function Backlog(o: Outbox): nat {
    match o.writer
    case AtPop => 1 + Lengths(o.items)
    case Writing(f, k) => 1 + Lengths(o.items) + if k <= |f| then |f| - k else 0
    case Exited(_) => 0
  }

  function Unsent(c: Conn): nat { Backlog(c.outb) }

  function Unposted(l: Loop<Handle>): set<nat> {
    set n | n in l.pool.live && Some(n) !in l.cq
  }

  datatype Rank = Rank(accepts: nat, input: nat, asleep: nat, unsent: nat, kernel: nat)

  /** Lexicographic: connections to come, input to come and live readers, sleeping handlers,
      unsent bytes and live writers, and completions the kernel owes or has queued. */
  function RankOf(s: Sys, p: Peers): Rank {
    Rank(p.connectsLeft + (if s.accepting then 1 else 0),
         p.bytesLeft + Sum(s.conns, Readers),
         Sum(s.conns, Sleepers),
         Sum(s.conns, Unsent),
         2 * |Unposted(s.loop)| + |s.loop.cq| + (if s.phase == Draining(true) then 0 else 2))
  }

  predicate Below(a: Rank, b: Rank) {
    a.accepts < b.accepts || (a.accepts == b.accepts &&
    (a.input < b.input || (a.input == b.input &&
    (a.asleep < b.asleep || (a.asleep == b.asleep &&
    (a.unsent < b.unsent || (a.unsent == b.unsent && a.kernel < b.kernel)))))))
  }

  lemma WrittenShrinks(o: Outbox, w: int)
    requires OutboxInv(o) && o.writer.Writing? && w <= |o.writer.frame| - o.writer.sent
    ensures Backlog(Written(o, w)) < Backlog(o)
  {}

  /** Each event of a connection moves its own part of the rank down and no part above it up. */
  lemma EventShrinks(cfg: Config, c: Conn, e: Event)
    requires ConnInv(cfg, c) && Enabled(c, e)
    ensures var r := Next(cfg, c, e);
      && Readers(r) == (if e.ReadEnded? then 0 else Readers(c))
      && (e.SleepDone? ==> Sleepers(r) < Sleepers(c))
      && (e.WriteDone? ==> Sleepers(r) == Sleepers(c) && Unsent(r) < Unsent(c))
  {
    if e.WriteDone? { WrittenShrinks(c.outb, e.result); }
    if e.SleepDone? {
      assert (c.sleeping - {e.request}).Keys == c.sleeping.Keys - {e.request};
      assert |c.sleeping| == |c.sleeping.Keys| && |c.sleeping - {e.request}| == |(c.sleeping - {e.request}).Keys|;
    }
    hide InboxInv;
    hide OutboxInv;
    hide WorkInv;
  }

  /** The sums over all connections after an event of connection `i`. */
  lemma SumsShrink(cfg: Config, s: Sys, i: nat, e: Event, r: Sys, p: Peers, q: Peers)
    requires i < |s.conns| && ConnInv(cfg, s.conns[i]) && Enabled(s.conns[i], e)
    requires r.conns == s.conns[i := Next(cfg, s.conns[i], e).(out := [])]
    requires q.bytesLeft == p.bytesLeft - (if e.ReadDone? then |e.data| else 0)
    ensures var a, b := RankOf(r, q), RankOf(s, p);
      a.input < b.input || (a.input == b.input &&
      (a.asleep < b.asleep || (a.asleep == b.asleep && a.unsent < b.unsent)))
  {
    hide ConnInv;
    hide Next;
    EventShrinks(cfg, s.conns[i], e);
    var c := Next(cfg, s.conns[i], e).(out := []);
    SumUpdate(s.conns, i, c, Readers);
    SumUpdate(s.conns, i, c, Sleepers);
    SumUpdate(s.conns, i, c, Unsent);
    hide Sum;
    hide Unposted;
    hide Backlog;
  }

  lemma PostShrinks(l: Loop<Handle>, n: nat)
    requires CanPost(l, n)
    ensures |Unposted(Post(l, n))| == |Unposted(l)| - 1
  {
    var r := Post(l, n);
    assert forall k :: Some(k) in r.cq <==> (Some(k) in l.cq || k == n);
    assert Unposted(r) == Unposted(l) - {n};
  }

  lemma UntaggedKeepsUnposted(l: Loop<Handle>, result: int)
    ensures Unposted(PostUntagged(l)) == Unposted(l)
    ensures l.cq != [] && l.cq[0].None? ==> Unposted(Dispatch(l, result)) == Unposted(l)
  {}

  /** Every step of the drain phase strictly lowers the rank, although resumed coroutines submit
      new operations. */
  lemma DrainDescends(cfg: Config, s: Sys, p: Peers, st: Step)
    requires Inv(cfg, s) && s.phase.Draining? && CanDo(s, st) && Affordable(p, st)
    ensures Below(RankOf(Do(cfg, s, st), Spend(p, st)), RankOf(s, p))
  {
    hide LoopInv;
    hide HeldInv;
    hide ConnInv;
    hide Sum;
    hide Unposted;
    hide SuspendAll;
    hide Next;
    match st
    case Complete(n) => PostShrinks(s.loop, n);
    case CompleteCancel => UntaggedKeepsUnposted(s.loop, 0);
    case Resume(result, outcome) =>
      match outcome {
        case Nothing => UntaggedKeepsUnposted(s.loop, result);
        case Accepted(_) =>
        case AcceptFailed =>
          DispatchAboutToRun(cfg, s, result);
        case OnConnection(e) =>
          var i := s.loop.pool.live[s.loop.cq[0].value].handle.conn;
          SumsShrink(cfg, s, i, e, Do(cfg, s, st), p, Spend(p, st));
      }
  }

  const ECANCELED: int := -125

  /** What a cancelled operation reports to the coroutine that waits for it. */
  function Cancelled(op: Op): Event {
    match op
    case ReadOp => ReadEnded
    case WriteOp => WriteDone(ECANCELED)
    case SleepOp(i) => SleepDone(i)
  }

  /** A drain with work left is never stuck, even when the peers have nothing left to give:
      something can complete, or a completion can be dispatched, if only as cancelled. */
  lemma DrainProgresses(cfg: Config, s: Sys)
    requires Inv(cfg, s) && s.loop.pool.inFlight > 0
    ensures exists st: Step :: !st.BeginDrain? && CanDo(s, st) && forall p :: Affordable(p, st)
  {
    hide Conserved;
    hide ConnInv;
    hide Waits;
    if s.loop.cq == [] {
      var n :| n in s.loop.pool.live;
      var st := Complete(n);
      assert CanDo(s, st);
    } else if s.loop.cq[0].None? {
      var st := Resume(0, Nothing);
      assert CanDo(s, st);
    } else {
      var h := s.loop.pool.live[s.loop.cq[0].value].handle;
      assert Waiting(s, h);
      if h.Of? { CancelEnabled(cfg, s.conns[h.conn], h.op); }
      var st := if h.Acceptor? then Resume(ECANCELED, AcceptFailed) else Resume(ECANCELED, OnConnection(Cancelled(h.op)));
      assert CanDo(s, st);
    }
  }

  lemma CancelEnabled(cfg: Config, c: Conn, op: Op)
    requires ConnInv(cfg, c) && Waits(c, op)
    ensures Enabled(c, Cancelled(op)) && OpOf(Cancelled(op)) == op && ResultMatches(ECANCELED, Cancelled(op))
  {}

  /** One moment of a drain: the state, what the peers have left, and the step taken next. */
  datatype Moment = Moment(s: Sys, p: Peers, st: Step)

  ghost predicate DrainsTo(cfg: Config, a: Moment, b: Moment) {
    && CanDo(a.s, a.st) && Affordable(a.p, a.st)
    && b.s == Do(cfg, a.s, a.st) && b.p == Spend(a.p, a.st)
  }

  /** There is no infinite drain: along any sequence of moments some step is not taken. */
  lemma {:induction false} EveryDrainEnds(cfg: Config, run: nat -> Moment)
    requires Inv(cfg, run(0).s) && run(0).s.phase.Draining?
    ensures exists k: nat :: !DrainsTo(cfg, run(k), run(k + 1))
    decreases RankOf(run(0).s, run(0).p).accepts, RankOf(run(0).s, run(0).p).input, RankOf(run(0).s, run(0).p).asleep,
      RankOf(run(0).s, run(0).p).unsent, RankOf(run(0).s, run(0).p).kernel
  {
    hide Inv;
    hide RankOf;
    hide CanDo;
    if DrainsTo(cfg, run(0), run(0 + 1)) {
      var a := run(0);
      DrainDescends(cfg, a.s, a.p, a.st);
      DoKeeps(cfg, a.s, a.st);
      StaysDraining(cfg, a.s, a.st);
      hide Do;
      var later := (k: nat) => run(k + 1);
      EveryDrainEnds(cfg, later);
      var k: nat :| !DrainsTo(cfg, later(k), later(k + 1));
      assert !DrainsTo(cfg, run(k + 1), run(k + 1 + 1));
    }
  }

  lemma StaysDraining(cfg: Config, s: Sys, st: Step)
    requires s.phase.Draining? && CanDo(s, st)
    ensures Do(cfg, s, st).phase.Draining?
  {}

  /** What a wait in the drain loop returns, and what it has put into the completion queue. */
  datatype Waited = Waited(ret: int, arrivals: seq<Step>)

  /** The kernel completes these operations, and then there is something to dispatch. */
  ghost predicate Arrive(cfg: Config, s: Sys, arrivals: seq<Step>)
    decreases |arrivals|
  {
    if arrivals == [] then s.loop.cq != [] else
      && (arrivals[0].Complete? || arrivals[0].CompleteCancel?) && CanDo(s, arrivals[0])
      && Arrive(cfg, Do(cfg, s, arrivals[0]), arrivals[1..])
  }

  lemma BelowTrans(a: Rank, b: Rank, c: Rank)
    requires Below(a, b) && Below(b, c)
    ensures Below(a, c)
  {}

  /** All that one step of the drain keeps. */
  lemma DrainStep(cfg: Config, s: Sys, p: Peers, st: Step, from: Rank)
    requires Inv(cfg, s) && s.phase.Draining? && CanDo(s, st) && Affordable(p, st)
    requires RankOf(s, p) == from || Below(RankOf(s, p), from)
    ensures var r := Do(cfg, s, st); Inv(cfg, r) && r.phase.Draining? && Below(RankOf(r, Spend(p, st)), from)
  {
    hide Inv;
    hide CanDo;
    hide RankOf;
    DrainDescends(cfg, s, p, st);
    DoKeeps(cfg, s, st);
    StaysDraining(cfg, s, st);
    hide Do;
    hide Below;
    if RankOf(s, p) != from { BelowTrans(RankOf(Do(cfg, s, st), Spend(p, st)), RankOf(s, p), from); }
  }

  /** The drain loop of Run: wait, then dispatch until the completion queue is empty. The kernel is
      two oracles: `wait` decides each wait, and `ring` what a dispatched completion brings, or which
      completion arrives while the batch is being dispatched. Any negative return ends the loop, and
      that includes a wait that timed out. The loops terminate against every such kernel; unless a
      wait comes back negative with operations outstanding, nothing is left behind. */
  method RunDrain(cfg: Config, start: Sys, peers: Peers, wait: (Sys, Peers) -> Waited, ring: (Sys, Peers) -> Step)
    returns (s: Sys, ok: bool)
    requires Inv(cfg, start) && start.phase.Draining?
    requires forall s, p :: wait(s, p).ret >= 0 ==> Arrive(cfg, s, wait(s, p).arrivals)
    requires forall s, p :: Inv(cfg, s) && s.phase.Draining? && s.loop.cq != [] ==>
      CanDo(s, ring(s, p)) && Affordable(p, ring(s, p))
    ensures Inv(cfg, s)
    ensures ok ==> CleanlyStopped(s)
    ensures ok <==> s.loop.pool.inFlight == 0
    ensures !ok ==> exists p :: wait(s, p).ret < 0
  {
    hide Inv;
    hide CanDo;
    hide Do;
    hide RankOf;
    s := start;
    var p := peers;
    while s.loop.pool.inFlight > 0
      invariant Inv(cfg, s) && s.phase.Draining?
      decreases RankOf(s, p).accepts, RankOf(s, p).input, RankOf(s, p).asleep, RankOf(s, p).unsent, RankOf(s, p).kernel
    {
      var waited := wait(s, p);
      if waited.ret < 0 { return s, false; }
      ghost var from := RankOf(s, p);
      var arrivals := waited.arrivals;
      while arrivals != []
        invariant Inv(cfg, s) && s.phase.Draining? && Arrive(cfg, s, arrivals)
        invariant RankOf(s, p) == from || Below(RankOf(s, p), from)
        decreases |arrivals|
      {
        DrainStep(cfg, s, p, arrivals[0], from);
        s, arrivals := Do(cfg, s, arrivals[0]), arrivals[1..];
      }
      while s.loop.cq != []
        invariant Inv(cfg, s) && s.phase.Draining?
        invariant s.loop.cq == [] ==> Below(RankOf(s, p), from)
        invariant RankOf(s, p) == from || Below(RankOf(s, p), from)
        decreases RankOf(s, p).accepts, RankOf(s, p).input, RankOf(s, p).asleep, RankOf(s, p).unsent, RankOf(s, p).kernel
      {
        var st := ring(s, p);
        DrainDescends(cfg, s, p, st);
        DrainStep(cfg, s, p, st, from);
        s, p := Do(cfg, s, st), Spend(p, st);
      }
    }
    Counted(cfg, s);
    CleanShutdown(cfg, s);
    return s, true;
  }

  lemma Counted(cfg: Config, s: Sys)
    requires Inv(cfg, s)
    ensures s.loop.pool.inFlight >= 0
  {
    hide ConnsInv;
    hide HeldInv;
    hide WaitingInv;
  }
}
