/** The pipelining client's sliding window: a sender and a receiver thread over an atomic counter
    and a locked map, and a server that answers every request once, in any order. Each shared
    access is one step; a run is any interleaving of the steps. */
module SlidingWindow {
  import opened Wire
  import opened Totals

  type i32 = x: int | -0x8000_0000 <= x < 0x8000_0000

  /** The sender, at request `i`. */
  datatype Sender =
    | AtLoop(i: nat)     // about to test i < count and recv_error
    | AtGate(i: nat)     // about to load in_flight
    | AtInsert(i: nat)   // about to put i into pending
    | AtAdd(i: nat)      // about to increment in_flight
    | AtSend(i: nat)     // about to send
    | SenderDone(i: nat)

  /** The receiver, after `j` responses. */
  datatype Receiver =
    | AtRecv(j: nat)
    | AtErase(j: nat, id: u32)  // holds a response, about to look it up
    | AtSub(j: nat)             // about to decrement in_flight
    | ReceiverDone(j: nat)
    | ReceiverFailed(j: nat)

  datatype World = World(
    count: i32,
    window: int,
    sender: Sender,
    receiver: Receiver,
    pending: set<u32>,
    inFlight: int,
    recvError: bool,
    asked: set<u32>,       // requests with the server
    answers: seq<u32>,     // responses on their way, in order
    latencies: seq<u32>    // the requests whose round trip was recorded
  )

  datatype Step = SenderStep | ReceiverStep | Answer(id: u32) | ReceiverError

  function Init(count: i32, window: int): World {
    World(count, window, AtLoop(0), AtRecv(0), {}, 0, false, {}, [], [])
  }

  /** The sequence number of request `i`. */
  function SeqId(i: nat): u32 { i % TWO_32 }

  function SenderNext(w: World): World {
    match w.sender
    case AtLoop(i) => w.(sender := if i < w.count && !w.recvError then AtGate(i) else SenderDone(i))
    case AtGate(i) => if w.inFlight >= w.window then w else w.(sender := AtInsert(i))
    case AtInsert(i) => w.(pending := w.pending + {SeqId(i)}, sender := AtAdd(i))
    case AtAdd(i) => w.(inFlight := w.inFlight + 1, sender := AtSend(i))
    case AtSend(i) => w.(asked := w.asked + {SeqId(i)}, sender := AtLoop(i + 1))
    case SenderDone(_) => w
  }

  function ReceiverNext(w: World): World {
    match w.receiver
    case AtRecv(j) =>
      if j >= w.count then w.(receiver := ReceiverDone(j))
      else if w.answers == [] then w
      else w.(answers := w.answers[1..], receiver := AtErase(j, w.answers[0]))
    case AtErase(j, id) =>
      if id in w.pending then w.(latencies := w.latencies + [id], pending := w.pending - {id}, receiver := AtSub(j))
      else w.(receiver := AtSub(j))
    case AtSub(j) => w.(inFlight := w.inFlight - 1, receiver := AtRecv(j + 1))
    case _ => w
  }

  /** A step that gets somewhere: spinning at the gate and waiting in recv do not. */
  predicate Enabled(w: World, st: Step) {
    match st
    case SenderStep => !w.sender.SenderDone? && !(w.sender.AtGate? && w.inFlight >= w.window)
    case ReceiverStep =>
      && !w.receiver.ReceiverDone? && !w.receiver.ReceiverFailed?
      && !(w.receiver.AtRecv? && w.receiver.j < w.count && w.answers == [])
    case Answer(id) => id in w.asked
    case ReceiverError => w.receiver.AtRecv? && w.receiver.j < w.count
  }

  function Next(w: World, st: Step): World {
    match st
    case SenderStep => SenderNext(w)
    case ReceiverStep => ReceiverNext(w)
    case Answer(id) => w.(asked := w.asked - {id}, answers := w.answers + [id])
    case ReceiverError => w.(recvError := true, receiver := if w.receiver.AtRecv? then ReceiverFailed(w.receiver.j) else w.receiver)
  }

  // ---------- the invariant of error-free runs ----------

  function Sent(w: World): nat { w.sender.i }

  /** Requests entered into pending, and counted in, so far. */
  function Inserted(w: World): nat { if w.sender.AtAdd? || w.sender.AtSend? then w.sender.i + 1 else w.sender.i }

  function Added(w: World): nat { if w.sender.AtSend? then w.sender.i + 1 else w.sender.i }

  function Erased(w: World): nat { if w.receiver.AtSub? then w.receiver.j + 1 else w.receiver.j }

  predicate InHand(w: World, id: u32) { w.receiver.AtErase? && w.receiver.id == id }

  function HandCount(w: World): nat { if w.receiver.AtErase? then 1 else 0 }

  /** Counters agree with what has happened, and the window is kept. */
  ghost predicate CountersInv(w: World) {
    && !w.recvError && !w.receiver.ReceiverFailed?
    && |w.latencies| == Erased(w)
    && w.inFlight == Added(w) - w.receiver.j
    && |w.asked| + |w.answers| + HandCount(w) + |w.latencies| == Sent(w)
    && w.inFlight <= w.window
    && (w.sender.AtInsert? || w.sender.AtAdd? ==> w.inFlight < w.window)
    && (!w.sender.AtLoop? && !w.sender.SenderDone? ==> w.sender.i < w.count)
    && (w.sender.SenderDone? ==> w.sender.i >= w.count)
    && (w.sender.i > 0 ==> w.sender.i <= w.count)
    && (w.receiver.ReceiverDone? ==> w.receiver.j >= w.count)
    && (w.receiver.AtErase? || w.receiver.AtSub? ==> w.receiver.j < w.count)
  }

  /** Each request sent is in exactly one place on its round trip. */
  ghost predicate PlacesInv(w: World) {
    && (forall id: u32 :: id < Sent(w) <==> (id in w.asked || id in w.answers || InHand(w, id) || id in w.latencies))
    && (forall id :: id in w.asked ==> id !in w.answers && !InHand(w, id) && id !in w.latencies)
    && (forall id :: id in w.answers ==> !InHand(w, id) && id !in w.latencies)
    && (forall id :: id in w.latencies ==> !InHand(w, id))
    && Distinct(w.answers) && Distinct(w.latencies)
  }

  /** The map holds exactly what was entered and has not been looked up. */
  ghost predicate PendingInv(w: World) {
    forall id: u32 :: id in w.pending <==> id < Inserted(w) && id !in w.latencies
  }

  ghost predicate Inv(w: World) {
    CountersInv(w) && PlacesInv(w) && PendingInv(w)
  }

  lemma SenderKeeps(w: World)
    requires Inv(w)
    ensures Inv(SenderNext(w))
  {
    if w.sender.AtSend? {
      SendKeeps(w);
    } else {
      hide PlacesInv;
      assert w.sender.i < w.count ==> SeqId(w.sender.i) == w.sender.i;
      SamePlaces(w, SenderNext(w));
    }
  }

  lemma SamePlaces(w: World, r: World)
    requires PlacesInv(w) && Sent(r) == Sent(w)
    requires (r.asked, r.answers, r.receiver, r.latencies) == (w.asked, w.answers, w.receiver, w.latencies)
    ensures PlacesInv(r)
  {}

  lemma SendKeeps(w: World)
    requires Inv(w) && w.sender.AtSend?
    ensures Inv(SenderNext(w))
  {
    var i := w.sender.i;
    assert SeqId(i) == i && i !in w.asked;
    assert |w.asked + {SeqId(i)}| == |w.asked| + 1;
  }

  lemma ReceiverKeeps(w: World)
    requires Inv(w)
    ensures Inv(ReceiverNext(w))
  {
    match w.receiver
    case AtRecv(j) =>
      if j < w.count && w.answers != [] {
        var id, rest := w.answers[0], w.answers[1..];
        assert forall x :: x in w.answers <==> (x == id || x in rest);
        assert id !in rest;
      }
    case AtErase(j, id) =>
      assert InHand(w, id) && id < Sent(w) && id in w.pending;
      var r := ReceiverNext(w);
      assert forall x :: x in r.latencies <==> (x == id || x in w.latencies);
    case _ =>
  }

  lemma AnswerKeeps(w: World, id: u32)
    requires Inv(w) && id in w.asked
    ensures Inv(Next(w, Answer(id)))
  {
    var r := Next(w, Answer(id));
    assert |r.asked| == |w.asked| - 1;
    assert forall x :: x in r.answers <==> (x == id || x in w.answers);
    assert r.answers[|w.answers|] == id;
  }

  ghost predicate IsRun(w: World, steps: seq<Step>)
    decreases |steps|
  {
    steps == [] || (Enabled(w, steps[0]) && IsRun(Next(w, steps[0]), steps[1..]))
  }

  function End(w: World, steps: seq<Step>): World
    decreases |steps|
  {
    if steps == [] then w else End(Next(w, steps[0]), steps[1..])
  }

  lemma {:induction false} RunKeeps(w: World, steps: seq<Step>)
    requires Inv(w) && IsRun(w, steps) && ReceiverError !in steps
    ensures Inv(End(w, steps))
    decreases |steps|
  {
    if steps != [] {
      assert steps[0] in steps;
      match steps[0] {
        case SenderStep => SenderKeeps(w);
        case ReceiverStep => ReceiverKeeps(w);
        case Answer(id) => AnswerKeeps(w, id);
        case ReceiverError =>
      }
      hide Inv;
      assert forall s :: s in steps[1..] ==> s in steps;
      RunKeeps(Next(w, steps[0]), steps[1..]);
    }
  }

  lemma InitInv(count: i32, window: int)
    requires window >= 0
    ensures Inv(Init(count, window))
  {}

  // ---------- what a run promises ----------

  lemma {:induction false} PendingSize(n: nat, pending: set<u32>, done: seq<u32>)
    requires n <= TWO_32 && Distinct(done) && forall id :: id in done ==> id < n
    requires forall id: u32 :: id in pending <==> id < n && id !in done
    ensures |pending| == n - |done|
    decreases |done|
  {
    if done == [] {
      Prefix(n, pending);
    } else {
      var id, rest := done[|done| - 1], done[..|done| - 1];
      assert forall x :: x in done <==> (x == id || x in rest);
      assert id !in rest;
      PendingSize(n, pending + {id}, rest);
    }
  }

  lemma {:induction false} Prefix(n: nat, s: set<u32>)
    requires n <= TWO_32 && forall id: u32 :: id in s <==> id < n
    ensures |s| == n
    decreases n
  {
    if n == 0 {
      assert s == {};
    } else {
      Prefix(n - 1, s - {n - 1});
    }
  }

  /** Under every interleaving: the counter stays within the window; it equals the size of the map,
      corrected by a sender between insert and add and a receiver between erase and subtract; and
      a response in hand is always found in the map. */
  lemma WindowKept(count: i32, window: int, steps: seq<Step>)
    requires window >= 0 && IsRun(Init(count, window), steps) && ReceiverError !in steps
    ensures var w := End(Init(count, window), steps);
      && 0 <= w.inFlight <= window
      && w.inFlight == |w.pending| - (if w.sender.AtAdd? then 1 else 0) + (if w.receiver.AtSub? then 1 else 0)
      && (w.receiver.AtErase? ==> w.receiver.id in w.pending)
  {
    InitInv(count, window);
    RunKeeps(Init(count, window), steps);
    KeptInState(End(Init(count, window), steps));
    SameWindow(Init(count, window), steps);
  }

  lemma KeptInState(w: World)
    requires Inv(w)
    ensures 0 <= w.inFlight <= w.window
    ensures w.inFlight == |w.pending| - (if w.sender.AtAdd? then 1 else 0) + (if w.receiver.AtSub? then 1 else 0)
    ensures w.receiver.AtErase? ==> w.receiver.id in w.pending
  {
    if w.receiver.AtErase? { FoundInMap(w); }
    PendingSize(Inserted(w), w.pending, w.latencies);
  }

  lemma {:induction false} SameWindow(w: World, steps: seq<Step>)
    ensures End(w, steps).window == w.window && End(w, steps).count == w.count
    decreases |steps|
  {
    if steps != [] { SameWindow(Next(w, steps[0]), steps[1..]); }
  }

  /** When both threads are done every request has been recorded exactly once and the map is empty. */
  lemma AllRecorded(count: i32, window: int, steps: seq<Step>)
    requires window >= 0 && count >= 0 && IsRun(Init(count, window), steps) && ReceiverError !in steps
    requires End(Init(count, window), steps).sender.SenderDone? && End(Init(count, window), steps).receiver.ReceiverDone?
    ensures var w := End(Init(count, window), steps);
      && |w.latencies| == count && Distinct(w.latencies) && (forall id: u32 :: id < count <==> id in w.latencies)
      && w.pending == {} && w.inFlight == 0 && w.asked == {} && w.answers == []
  {
    InitInv(count, window);
    RunKeeps(Init(count, window), steps);
    SameWindow(Init(count, window), steps);
  }

  /** Steps still to be taken by the two threads and the server. */
  function Left(w: World): int {
    SenderLeft(w) + ReceiverLeft(w) + (w.count - |w.answers| - HandCount(w) - |w.latencies|)
  }

  function SenderLeft(w: World): int {
    match w.sender
    case AtLoop(i) => 5 * (w.count - i) + 1
    case AtGate(i) => 5 * (w.count - i)
    case AtInsert(i) => 5 * (w.count - i) - 1
    case AtAdd(i) => 5 * (w.count - i) - 2
    case AtSend(i) => 5 * (w.count - i) - 3
    case SenderDone(_) => 0
  }

  function ReceiverLeft(w: World): int {
    match w.receiver
    case AtRecv(j) => 3 * (w.count - j) + 1
    case AtErase(j, _) => 3 * (w.count - j)
    case AtSub(j) => 3 * (w.count - j) - 1
    case _ => 0
  }

  lemma FoundInMap(w: World)
    requires Inv(w) && w.receiver.AtErase?
    ensures w.receiver.id in w.pending
  {
    assert InHand(w, w.receiver.id);
  }

  /** Every step that gets somewhere uses up exactly one of them, so no error-free run of such
      steps is longer than nine per request and two. */
  lemma StepUsesOne(w: World, st: Step)
    requires Inv(w) && w.count >= 0 && Enabled(w, st) && !st.ReceiverError?
    ensures Left(Next(w, st)) == Left(w) - 1 && Left(w) > 0
  {
    hide PlacesInv;
    hide PendingInv;
    if w.receiver.AtErase? { FoundInMap(w); }
  }

  lemma {:induction false} RunLength(w: World, steps: seq<Step>)
    requires Inv(w) && w.count >= 0 && IsRun(w, steps) && ReceiverError !in steps
    ensures |steps| + Left(End(w, steps)) == Left(w)
    decreases |steps|
  {
    if steps != [] {
      assert steps[0] in steps;
      StepUsesOne(w, steps[0]);
      assert IsRun(w, [steps[0]]) by { assert [steps[0]][1..] == []; }
      RunKeeps(w, [steps[0]]);
      assert [steps[0]][1..] == [];
      hide Inv;
      assert forall s :: s in steps[1..] ==> s in steps;
      RunLength(Next(w, steps[0]), steps[1..]);
    }
  }

  /** With a window of at least one there is no deadlock: until both threads are done, one of them
      or the server can take a step that gets somewhere. */
  lemma NoDeadlock(w: World)
    requires Inv(w) && w.window >= 1 && w.count >= 0
    requires !(w.sender.SenderDone? && w.receiver.ReceiverDone?)
    ensures Enabled(w, SenderStep) || Enabled(w, ReceiverStep) || exists id :: Enabled(w, Answer(id))
  {
    if !Enabled(w, SenderStep) && !Enabled(w, ReceiverStep) {
      assert |w.asked| > 0;
      var id :| id in w.asked;
      assert Enabled(w, Answer(id));
    }
  }

  // ---------- when the receiver dies ----------

  predicate Stuck(w: World) {
    w.sender.AtGate? && w.inFlight >= w.window
  }

  /** However the run goes on, the sender does not come to its end. */
  ghost predicate Hangs(w: World) {
    forall more :: IsRun(w, more) ==> !End(w, more).sender.SenderDone?
  }

  /** The sender tests recv_error only between requests, not at the gate. Once the receiver has
      failed, it hangs if and only if it is at a closed gate by then: nobody opens that gate again. */
  lemma HangsIff(w: World)
    requires w.recvError && w.receiver.ReceiverFailed?
    ensures Hangs(w) <==> Stuck(w)
  {
    if Stuck(w) {
      forall more | IsRun(w, more) ensures !End(w, more).sender.SenderDone? { StuckForever(w, more); }
    } else {
      var more := ReachesEnd(w);
    }
  }

  /** Whatever the server still does. */
  lemma {:induction false} StuckForever(w: World, steps: seq<Step>)
    requires Stuck(w) && w.receiver.ReceiverFailed? && IsRun(w, steps)
    ensures End(w, steps).sender == w.sender && Stuck(End(w, steps))
    decreases |steps|
  {
    if steps != [] { StuckForever(Next(w, steps[0]), steps[1..]); }
  }

  /** Past the gate the sender finishes its request and then sees the error. */
  lemma ReachesEnd(w: World) returns (steps: seq<Step>)
    requires w.recvError && !Stuck(w)
    ensures IsRun(w, steps) && End(w, steps).sender.SenderDone?
    decreases match w.sender {
      case AtGate(_) => 5 case AtInsert(_) => 4 case AtAdd(_) => 3
      case AtSend(_) => 2 case AtLoop(_) => 1 case SenderDone(_) => 0 }
  {
    if w.sender.SenderDone? { return []; }
    var rest := ReachesEnd(SenderNext(w));
    RunCons(w, SenderStep, rest);
    steps := [SenderStep] + rest;
  }

  lemma RunCons(w: World, st: Step, steps: seq<Step>)
    requires Enabled(w, st) && IsRun(Next(w, st), steps)
    ensures IsRun(w, [st] + steps) && End(w, [st] + steps) == End(Next(w, st), steps)
  {}

  /** A run of the whole client in which the receiver fails and the sender hangs for good. */
  ghost predicate LeavesSenderHanging(count: i32, window: int, steps: seq<Step>) {
    && IsRun(Init(count, window), steps)
    && var w := End(Init(count, window), steps); w.receiver.ReceiverFailed? && Hangs(w)
  }

  /** For every number of requests and every window: a failing receiver can leave the sender hanging
      if and only if the window is smaller than the number of requests. */
  lemma SenderCanHangIff(count: i32, window: int)
    ensures (exists steps :: LeavesSenderHanging(count, window, steps)) <==> 0 < count && window < count
  {
    hide Hangs;
    var start := Init(count, window);
    if steps :| LeavesSenderHanging(count, window, steps) {
      SenderBounds(start, steps);
      SameWindow(start, steps);
      HangsIff(End(start, steps));
    }
    if 0 < count && window < count {
      var steps := FillWindow(start);
      SenderBounds(start, steps);
      HangsIff(End(start, steps));
      assert LeavesSenderHanging(count, window, steps);
    }
  }

  /** What holds with or without errors. */
  ghost predicate BoundsInv(w: World) {
    && w.inFlight <= Added(w)
    && (!w.sender.AtLoop? && !w.sender.SenderDone? ==> w.sender.i < w.count)
    && (w.receiver.ReceiverFailed? ==> w.recvError)
  }

  lemma {:induction false} SenderBounds(w: World, steps: seq<Step>)
    requires BoundsInv(w) && IsRun(w, steps)
    ensures BoundsInv(End(w, steps))
    decreases |steps|
  {
    if steps != [] { SenderBounds(Next(w, steps[0]), steps[1..]); }
  }

  /** The sender fills the window and comes to the gate before the receiver fails. */
  lemma FillWindow(w: World) returns (steps: seq<Step>)
    requires w.sender.AtLoop? && w.inFlight == w.sender.i < w.count && w.window < w.count
    requires w.receiver == AtRecv(0) && !w.recvError && (w.window >= 0 ==> w.sender.i <= w.window)
    requires w.window < 0 ==> w.sender.i == 0
    ensures IsRun(w, steps) && Stuck(End(w, steps)) && End(w, steps).receiver.ReceiverFailed?
    decreases w.window - w.sender.i
  {
    var gate := SenderNext(w);
    if w.sender.i < w.window {
      var w2 := SenderNext(gate);
      var w3 := SenderNext(w2);
      var w4 := SenderNext(w3);
      steps := FillWindow(SenderNext(w4));
      hide IsRun;
      hide End;
      RunCons(w4, SenderStep, steps);
      RunCons(w3, SenderStep, [SenderStep] + steps);
      RunCons(w2, SenderStep, [SenderStep] + ([SenderStep] + steps));
      RunCons(gate, SenderStep, [SenderStep] + ([SenderStep] + ([SenderStep] + steps)));
      RunCons(w, SenderStep, [SenderStep] + ([SenderStep] + ([SenderStep] + ([SenderStep] + steps))));
      steps := [SenderStep] + ([SenderStep] + ([SenderStep] + ([SenderStep] + ([SenderStep] + steps))));
    } else {
      RunCons(gate, ReceiverError, []);
      RunCons(w, SenderStep, [ReceiverError]);
      steps := [SenderStep] + [ReceiverError];
    }
  }
}
