/** One IoContext thread as a whole: the event loop, the accept loop, any number of connections
    and the resource pools, moved by a kernel that completes operations in any order. */
module Server {
  import opened Wire
  import opened Connection
  import opened Suspensions
  import opened Totals
  import opened EventLoop
  import opened Pools

  /** A coroutine that can be suspended on I/O. */
  datatype Handle = Acceptor | Of(conn: nat, op: Op)

  datatype Phase = Running | Draining(cancelDone: bool)

  datatype Sys = Sys(
    loop: Loop<Handle>,
    conns: seq<Conn>,          // every connection ever accepted
    acquired: seq<Held>,       // what each was given when it was opened
    held: seq<Held>,           // what each holds now
    pools: Pools,
    bufSize: nat,
    accepting: bool,           // the accept loop is suspended in accept
    phase: Phase
  )

  /** What a dispatched completion means to the coroutine it resumes. */
  datatype Outcome =
    | Nothing                   // untagged: nobody is resumed
    | Accepted(registered: bool)
    | AcceptFailed
    | OnConnection(event: Event)

  datatype Step =
    | Complete(node: nat)       // the kernel finishes an operation
    | CompleteCancel            // the kernel finishes the untagged cancellation
    | Resume(result: int, outcome: Outcome)
    | BeginDrain                // Stop() or a wait error ends the main loop

  /** The connection is referenced by its reader's or its writer's frame. */
  predicate Alive(c: Conn) {
    c.reading || !c.outb.writer.Exited?
  }

  predicate Waiting(s: Sys, h: Handle) {
    match h
    case Acceptor => s.accepting
    case Of(c, op) => c < |s.conns| && Waits(s.conns[c], op)
  }

  /** Submissions of connection `c`, in order. */
  function SuspendAll(l: Loop<Handle>, c: nat, ops: seq<Op>): Loop<Handle>
    decreases |ops|
  {
    if ops == [] then l else SuspendAll(Suspend(l, Of(c, ops[0])), c, ops[1..])
  }

  function Capacity(idx: Option<nat>, bufSize: nat): Option<nat> {
    if idx.Some? then Some(bufSize) else None
  }

  /** The resumed accept loop opens the connection, starts its handler and accepts again. */
  function Accept(s: Sys, registered: bool): Sys {
    var h := Acquire(s.pools, registered);
    var c := Fresh(Capacity(h.rbuf, s.bufSize), Capacity(h.wbuf, s.bufSize));
    s.(loop := Suspend(SuspendAll(s.loop, |s.conns|, c.out), Acceptor),
       conns := s.conns + [c.(out := [])],
       acquired := s.acquired + [h],
       held := s.held + [h],
       pools := AfterAcquire(s.pools, registered))
  }

  /** Once neither coroutine refers to the connection its destructor gives everything back. */
  function Collect(s: Sys, i: nat): Sys
    requires i < |s.conns| && i < |s.held|
  {
    if Alive(s.conns[i]) then s else s.(pools := Return(s.pools, s.held[i]), held := s.held[i := NOTHING])
  }

  function OnEvent(cfg: Config, s: Sys, i: nat, e: Event): Sys
    requires i < |s.conns| && i < |s.held| && Enabled(s.conns[i], e)
  {
    var r := Next(cfg, s.conns[i], e);
    Collect(s.(loop := SuspendAll(s.loop, i, r.out), conns := s.conns[i := r.(out := [])]), i)
  }

  predicate ResultMatches(result: int, e: Event) {
    match e
    case ReadDone(data) => result == |data|
    case ReadEnded => result <= 0
    case WriteDone(w) => result == w
    case SleepDone(_) => true
  }

  /** Whether `st` can happen: any completion of an outstanding operation may come next. */
  predicate CanDo(s: Sys, st: Step) {
    match st
    case Complete(n) => CanPost(s.loop, n)
    case CompleteCancel => s.phase == Draining(false)
    case BeginDrain => s.phase.Running?
    case Resume(result, outcome) =>
      && s.loop.cq != []
      && match s.loop.cq[0]
         case None => outcome.Nothing?
         case Some(n) =>
           n in s.loop.pool.live &&
           match s.loop.pool.live[n].handle
           case Acceptor => if result >= 0 then outcome.Accepted? else outcome.AcceptFailed?
           case Of(c, op) =>
             && outcome.OnConnection? && OpOf(outcome.event) == op
             && c < |s.conns| && c < |s.held|
             && Enabled(s.conns[c], outcome.event) && ResultMatches(result, outcome.event)
  }

  function Do(cfg: Config, s: Sys, st: Step): Sys
    requires CanDo(s, st)
  {
    match st
    case Complete(n) => s.(loop := Post(s.loop, n))
    case CompleteCancel => s.(loop := PostUntagged(s.loop), phase := Draining(true))
    case BeginDrain => s.(phase := Draining(false))
    case Resume(result, outcome) =>
      var s1 := s.(loop := Dispatch(s.loop, result));
      match outcome
      case Nothing => s1
      case Accepted(registered) => Accept(s1, registered)
      case AcceptFailed => s1.(accepting := false)
      case OnConnection(e) => OnEvent(cfg, s1, s.loop.pool.live[s.loop.cq[0].value].handle.conn, e)
  }

  /** The server just started: one accept is outstanding. */
  function Init(bufCount: nat, bufSize: nat, fileCount: nat): Sys {
    Sys(Suspend(Empty(), Acceptor), [], [], [], Initial(bufCount, fileCount), bufSize, true, Running)
  }

  // ---------- the invariant of the whole server ----------

  ghost predicate ConnsInv(cfg: Config, s: Sys) {
    forall c :: 0 <= c < |s.conns| ==> ConnInv(cfg, s.conns[c]) && s.conns[c].out == []
  }

  /** The event loop waits for exactly the coroutines that are suspended on I/O. */
  ghost predicate WaitingInv(s: Sys) {
    forall h :: h in s.loop.awaits <==> Waiting(s, h)
  }

  ghost predicate HeldBy(s: Sys, c: nat)
    requires c < |s.conns| && c < |s.held| && c < |s.acquired|
  {
    s.held[c] == if Alive(s.conns[c]) then s.acquired[c] else NOTHING
  }

  /** A connection holds what it acquired for as long as a coroutine refers to it. */
  ghost predicate HeldInv(s: Sys) {
    && |s.held| == |s.acquired| == |s.conns|
    && Conserved(s.pools, s.held)
    && forall c :: 0 <= c < |s.conns| ==> HeldBy(s, c)
  }

  ghost predicate Inv(cfg: Config, s: Sys) {
    LoopInv(s.loop) && ConnsInv(cfg, s) && WaitingInv(s) && HeldInv(s)
  }

  lemma {:induction false} SuspendAllKeeps(l: Loop<Handle>, c: nat, ops: seq<Op>)
    requires LoopInv(l) && Distinct(ops) && forall op :: op in ops ==> Of(c, op) !in l.awaits
    ensures var r := SuspendAll(l, c, ops);
      && LoopInv(r)
      && forall h :: h in r.awaits <==> (h in l.awaits || (h.Of? && h.conn == c && h.op in ops))
    decreases |ops|
  {
    if ops != [] {
      SuspendKeeps(l, Of(c, ops[0]));
      hide LoopInv;
      assert forall op :: op in ops <==> (op == ops[0] || op in ops[1..]);
      SuspendAllKeeps(Suspend(l, Of(c, ops[0])), c, ops[1..]);
    }
  }

  lemma InitInv(cfg: Config, bufCount: nat, bufSize: nat, fileCount: nat)
    ensures Inv(cfg, Init(bufCount, bufSize, fileCount))
  {
    hide LoopInv;
    hide Conserved;
    hide Initial;
    hide Waits;
    InitialConserved(bufCount, fileCount);
    EmptyInv<Handle>();
    SuspendKeeps(Empty(), Acceptor);
  }

  /** `s`, with the coroutine `h` taken off the event loop and about to run. */
  ghost predicate AboutToRun(cfg: Config, s: Sys, h: Handle) {
    && LoopInv(s.loop) && ConnsInv(cfg, s) && HeldInv(s) && Waiting(s, h)
    && forall x :: x in s.loop.awaits <==> (Waiting(s, x) && x != h)
  }

  lemma AcceptKeeps(cfg: Config, s: Sys, registered: bool)
    requires AboutToRun(cfg, s, Acceptor)
    ensures Inv(cfg, Accept(s, registered))
  {
    hide LoopInv;
    hide ConnInv;
    hide HeldInv;
    hide Conserved;
    hide SuspendAll;
    hide Acquire;
    hide AfterAcquire;
    hide Waits;
    var h := Acquire(s.pools, registered);
    var rcap, wcap := Capacity(h.rbuf, s.bufSize), Capacity(h.wbuf, s.bufSize);
    FreshInv(cfg, rcap, wcap);
    AcceptHeld(s, registered);
    var n, c := |s.conns|, Fresh(rcap, wcap);
    SuspendAllKeeps(s.loop, n, c.out);
    SuspendKeeps(SuspendAll(s.loop, n, c.out), Acceptor);
    FreshWaits(rcap, wcap);
    AcceptWaiting(s, Accept(s, registered), c);
    AcceptConns(cfg, s, c);
  }

  lemma FreshWaits(rcap: Option<nat>, wcap: Option<nat>)
    ensures forall op :: Waits(Fresh(rcap, wcap), op) <==> op in Fresh(rcap, wcap).out
  {}

  lemma AcceptConns(cfg: Config, s: Sys, c: Conn)
    requires ConnsInv(cfg, s) && ConnInv(cfg, c)
    ensures ConnsInv(cfg, s.(conns := s.conns + [c.(out := [])]))
  {}

  lemma AcceptHeld(s: Sys, registered: bool)
    requires HeldInv(s)
    ensures HeldInv(Accept(s, registered))
  {
    hide Conserved;
    hide SuspendAll;
    hide Acquire;
    hide AfterAcquire;
    AcquireConserves(s.pools, registered, s.held);
    var r := Accept(s, registered);
    assert Alive(r.conns[|s.conns|]);
    forall c | 0 <= c < |r.conns| ensures HeldBy(r, c) { assert c < |s.conns| ==> HeldBy(s, c); }
  }

  lemma AcceptWaiting(s: Sys, r: Sys, c: Conn)
    requires s.accepting && r.accepting && r.conns == s.conns + [c.(out := [])]
    requires forall op :: Waits(c, op) <==> op in c.out
    requires forall h :: h in s.loop.awaits <==> (Waiting(s, h) && h != Acceptor)
    requires forall h :: h in r.loop.awaits <==>
      (h == Acceptor || h in s.loop.awaits || (h.Of? && h.conn == |s.conns| && h.op in c.out))
    ensures WaitingInv(r)
  {}

  lemma CollectKeeps(s: Sys, i: nat)
    requires i < |s.conns| && |s.held| == |s.acquired| == |s.conns|
    requires Conserved(s.pools, s.held)
    requires forall c :: 0 <= c < |s.conns| && c != i ==> HeldBy(s, c)
    requires s.held[i] == s.acquired[i] || (s.held[i] == NOTHING && !Alive(s.conns[i]))
    ensures HeldInv(Collect(s, i))
  {
    hide Conserved;
    hide Return;
    hide Alive;
    ReturnConserves(s.pools, s.held, i);
    var r := Collect(s, i);
    forall c | 0 <= c < |s.conns| ensures HeldBy(r, c) {
      assert c != i ==> HeldBy(s, c);
    }
  }

  lemma OnEventHeld(cfg: Config, s: Sys, i: nat, e: Event, s1: Sys)
    requires HeldInv(s) && i < |s.conns| && ConnInv(cfg, s.conns[i]) && Enabled(s.conns[i], e)
    requires s1 == s.(loop := s1.loop, conns := s.conns[i := Next(cfg, s.conns[i], e).(out := [])])
    ensures HeldInv(Collect(s1, i))
  {
    hide ConnInv;
    hide Next;
    hide Conserved;
    AliveStays(cfg, s.conns[i], e);
    forall c | 0 <= c < |s1.conns| && c != i ensures HeldBy(s1, c) { assert HeldBy(s, c); }
    assert HeldBy(s, i);
    CollectKeeps(s1, i);
  }

  lemma OnEventKeeps(cfg: Config, s: Sys, i: nat, e: Event)
    requires i < |s.conns| && i < |s.held| && Enabled(s.conns[i], e) && AboutToRun(cfg, s, Of(i, OpOf(e)))
    ensures Inv(cfg, OnEvent(cfg, s, i, e))
  {
    hide LoopInv;
    hide ConnInv;
    hide HeldInv;
    hide SuspendAll;
    hide Next;
    hide Enabled;
    hide Waits;
    var c := s.conns[i];
    var r := Next(cfg, c, e);
    NextKeeps(cfg, c, e);
    NextSubmits(cfg, c, e);
    forall op | op in r.out ensures Of(i, op) !in s.loop.awaits {
      assert Waiting(s, Of(i, op)) ==> op == OpOf(e);
    }
    SuspendAllKeeps(s.loop, i, r.out);
    var s1 := s.(loop := SuspendAll(s.loop, i, r.out), conns := s.conns[i := r.(out := [])]);
    OnEventConns(cfg, s, i, r);
    OnEventWaiting(s, s1, i, OpOf(e), r);
    OnEventHeld(cfg, s, i, e, s1);
    CollectOnly(cfg, s1, i);
  }

  /** Collecting a connection changes neither coroutines nor the event loop. */
  lemma CollectOnly(cfg: Config, s: Sys, i: nat)
    requires ConnsInv(cfg, s) && WaitingInv(s) && i < |s.conns| && i < |s.held|
    ensures var r := Collect(s, i); ConnsInv(cfg, r) && WaitingInv(r) && r.loop == s.loop
  {}

  lemma OnEventConns(cfg: Config, s: Sys, i: nat, r: Conn)
    requires ConnsInv(cfg, s) && i < |s.conns| && ConnInv(cfg, r)
    ensures ConnsInv(cfg, s.(conns := s.conns[i := r.(out := [])]))
  {}

  lemma OnEventWaiting(s: Sys, s1: Sys, i: nat, op: Op, r: Conn)
    requires i < |s.conns| && Rearmed(s.conns[i], op, r)
    requires s1.conns == s.conns[i := r.(out := [])] && s1.accepting == s.accepting
    requires forall h :: h in s.loop.awaits <==> (Waiting(s, h) && h != Of(i, op))
    requires forall h :: h in s1.loop.awaits <==> (h in s.loop.awaits || (h.Of? && h.conn == i && h.op in r.out))
    ensures WaitingInv(s1)
  {}

  /** A connection nobody refers to any more is never taken up again. */
  lemma AliveStays(cfg: Config, c: Conn, e: Event)
    requires ConnInv(cfg, c) && Enabled(c, e)
    ensures !Alive(c) ==> !Alive(Next(cfg, c, e))
  {}

  lemma DispatchAboutToRun(cfg: Config, s: Sys, result: int)
    requires Inv(cfg, s) && s.loop.cq != [] && s.loop.cq[0].Some?
    ensures s.loop.cq[0].value in s.loop.pool.live
    ensures AboutToRun(cfg, s.(loop := Dispatch(s.loop, result)), s.loop.pool.live[s.loop.cq[0].value].handle)
  {
    hide LoopInv;
    hide ConnInv;
    hide Conserved;
    hide Waits;
    DispatchKeeps(s.loop, result);
    var h := s.loop.pool.live[s.loop.cq[0].value].handle;
    assert Waiting(s, h);
    var s1 := s.(loop := Dispatch(s.loop, result));
    assert forall x :: Waiting(s1, x) == Waiting(s, x);
    forall c | 0 <= c < |s.conns| ensures HeldBy(s1, c) { assert HeldBy(s, c); }
  }

  /** Every step of the server keeps the whole invariant. */
  lemma DoKeeps(cfg: Config, s: Sys, st: Step)
    requires Inv(cfg, s) && CanDo(s, st)
    ensures Inv(cfg, Do(cfg, s, st))
  {
    match st
    case Complete(n) => PostKeeps(s.loop, n); IdleStep(cfg, s, Do(cfg, s, st));
    case CompleteCancel => PostUntaggedKeeps(s.loop); IdleStep(cfg, s, Do(cfg, s, st));
    case BeginDrain => IdleStep(cfg, s, Do(cfg, s, st));
    case Resume(result, outcome) => ResumeKeeps(cfg, s, result, outcome);
  }

  lemma IdleStep(cfg: Config, s: Sys, r: Sys)
    requires Inv(cfg, s) && LoopInv(r.loop) && r.loop.awaits == s.loop.awaits
    requires r == s.(loop := r.loop, phase := r.phase)
    ensures Inv(cfg, r)
  {
    hide LoopInv;
    hide ConnInv;
    hide Conserved;
    hide Waits;
    assert forall x :: Waiting(r, x) == Waiting(s, x);
    forall c | 0 <= c < |s.conns| ensures HeldBy(r, c) { assert HeldBy(s, c); }
  }

  lemma ResumeKeeps(cfg: Config, s: Sys, result: int, outcome: Outcome)
    requires Inv(cfg, s) && CanDo(s, Resume(result, outcome))
    ensures Inv(cfg, Do(cfg, s, Resume(result, outcome)))
  {
    hide LoopInv;
    hide ConnInv;
    hide HeldInv;
    hide Waits;
    hide Accept;
    hide OnEvent;
    DispatchKeeps(s.loop, result);
    var s1 := s.(loop := Dispatch(s.loop, result));
    if s.loop.cq[0].None? {
      IdleStep(cfg, s, s1);
    } else {
      DispatchAboutToRun(cfg, s, result);
      match outcome
      case Accepted(registered) => AcceptKeeps(cfg, s1, registered);
      case AcceptFailed => AcceptFailedKeeps(cfg, s1);
      case OnConnection(e) =>
        var h := s.loop.pool.live[s.loop.cq[0].value].handle;
        assert h == Of(h.conn, OpOf(e));
        OnEventKeeps(cfg, s1, h.conn, e);
    }
  }

  lemma AcceptFailedKeeps(cfg: Config, s: Sys)
    requires AboutToRun(cfg, s, Acceptor)
    ensures Inv(cfg, s.(accepting := false))
  {
    hide LoopInv;
    hide ConnInv;
    hide Conserved;
    hide Waits;
    var r := s.(accepting := false);
    assert forall x :: Waiting(r, x) <==> (Waiting(s, x) && x != Acceptor);
    forall c | 0 <= c < |s.conns| ensures HeldBy(r, c) { assert HeldBy(s, c); }
  }
}
