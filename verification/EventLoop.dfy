/** The event loop: submissions, completions in any order, and the dispatch of one completion.

    A submission is a suspension: the coroutine `handle` waits for the result slot of its
    awaitable, numbered in submission order. The completion queue holds user data only; what a
    completion carries is bound when it is dispatched, since nothing looks at it before. */
module EventLoop {
  import opened Wire
  import opened RequestPool

  datatype Suspension<H> = Suspension(handle: H, slot: nat)
  datatype Delivery<H> = Delivery(slot: nat, handle: H, result: int)

  datatype Loop<H> = Loop(
    pool: Pool<nat, Suspension<H>>,
    total: nat,                   // nodes ever allocated
    cq: seq<Option<nat>>,         // user data of unprocessed completions, None if untagged
    awaits: map<H, nat>,          // the slot in the frame of each suspended coroutine
    submitted: seq<H>,            // who submitted, by slot
    log: seq<Delivery<H>>         // results delivered
  )

  function Empty<H>(): Loop<H> {
    Loop(Pool([], map[], 0), 0, [], map[], [], [])
  }

  /** IoContext::Submit on behalf of coroutine `h`. */
  function Suspend<H>(l: Loop<H>, h: H): Loop<H> {
    var slot := |l.submitted|;
    l.(pool := Submit(l.pool, l.total, Suspension(h, slot)),
       total := if l.pool.free == [] then l.total + 1 else l.total,
       awaits := l.awaits[h := slot],
       submitted := l.submitted + [h])
  }

  /** The kernel completes operation `n`. */
  function Post<H>(l: Loop<H>, n: nat): Loop<H> {
    l.(cq := l.cq + [Some(n)])
  }

  /** The kernel completes the untagged cancellation request. */
  function PostUntagged<H>(l: Loop<H>): Loop<H> {
    l.(cq := l.cq + [None])
  }

  predicate CanPost<H>(l: Loop<H>, n: nat) {
    n in l.pool.live && Some(n) !in l.cq
  }

  /** One turn of the dispatch loop up to handle.resume(): write the slot, free the node. */
  function Dispatch<H>(l: Loop<H>, result: int): Loop<H>
    requires l.cq != [] && (l.cq[0].Some? ==> l.cq[0].value in l.pool.live)
  {
    var l1 := l.(cq := l.cq[1..]);
    match l.cq[0]
    case None => l1
    case Some(n) =>
      var s := l.pool.live[n];
      l1.(pool := Release(l.pool, n),
          awaits := l.awaits - {s.handle},
          log := l.log + [Delivery(s.slot, s.handle, result)])
  }

  // ---------- invariants ----------

  /** Every node ever allocated is either free or in flight; completions name nodes in flight,
      each at most once. */
  ghost predicate NodesInv<H>(l: Loop<H>) {
    && PoolInv(l.pool)
    && (forall n: nat :: n < l.total <==> (n in l.pool.free || n in l.pool.live))
    && (forall i :: 0 <= i < |l.cq| && l.cq[i].Some? ==> l.cq[i].value in l.pool.live)
    && (forall i, j :: 0 <= i < j < |l.cq| && l.cq[i].Some? ==> l.cq[i] != l.cq[j])
  }

  /** Nodes in flight and suspended coroutines match one to one: a node holds the handle of the
      coroutine that waits and points to the slot that coroutine waits on. */
  ghost predicate WaitersInv<H>(l: Loop<H>) {
    && |l.awaits| == l.pool.inFlight
    && (forall n :: n in l.pool.live ==>
          l.pool.live[n].handle in l.awaits && l.awaits[l.pool.live[n].handle] == l.pool.live[n].slot)
    && (forall n, k :: n in l.pool.live && k in l.pool.live && n != k ==> l.pool.live[n].slot != l.pool.live[k].slot)
  }

  /** Each submission is delivered to its own coroutine, at most once, and counted. */
  ghost predicate OnceInv<H>(l: Loop<H>) {
    && |l.log| + l.pool.inFlight == |l.submitted|
    && (forall n :: n in l.pool.live ==>
          l.pool.live[n].slot < |l.submitted| && l.submitted[l.pool.live[n].slot] == l.pool.live[n].handle)
    && (forall i :: 0 <= i < |l.log| ==> l.log[i].slot < |l.submitted| && l.submitted[l.log[i].slot] == l.log[i].handle)
    && (forall i, j :: 0 <= i < j < |l.log| ==> l.log[i].slot != l.log[j].slot)
    && (forall i, n :: 0 <= i < |l.log| && n in l.pool.live ==> l.log[i].slot != l.pool.live[n].slot)
  }

  ghost predicate LoopInv<H>(l: Loop<H>) {
    NodesInv(l) && WaitersInv(l) && OnceInv(l)
  }

  lemma EmptyInv<H>()
    ensures LoopInv(Empty<H>())
  {}

  lemma SuspendKeeps<H>(l: Loop<H>, h: H)
    requires LoopInv(l) && h !in l.awaits
    ensures LoopInv(Suspend(l, h))
  {
    hide NodesInv;
    hide WaitersInv;
    hide OnceInv;
    SuspendNodes(l, h);
    SuspendWaiters(l, h);
    SuspendOnce(l, h);
  }

  lemma SuspendOnce<H>(l: Loop<H>, h: H)
    requires OnceInv(l) && Pick(l.pool, l.total) !in l.pool.live
    ensures OnceInv(Suspend(l, h))
  {
    var n, r := Pick(l.pool, l.total), Suspend(l, h);
    assert forall k :: k in r.pool.live ==> k == n || (k in l.pool.live && r.pool.live[k] == l.pool.live[k]);
  }

  lemma SuspendNodes<H>(l: Loop<H>, h: H)
    requires NodesInv(l)
    ensures NodesInv(Suspend(l, h)) && Pick(l.pool, l.total) !in l.pool.live
  {}

  lemma SuspendWaiters<H>(l: Loop<H>, h: H)
    requires WaitersInv(l) && OnceInv(l) && h !in l.awaits && Pick(l.pool, l.total) !in l.pool.live
    ensures WaitersInv(Suspend(l, h))
  {}

  lemma PostKeeps<H>(l: Loop<H>, n: nat)
    requires LoopInv(l) && CanPost(l, n)
    ensures LoopInv(Post(l, n))
  {}

  lemma PostUntaggedKeeps<H>(l: Loop<H>)
    requires LoopInv(l)
    ensures LoopInv(PostUntagged(l))
  {}

  /** Dispatch writes the very slot its coroutine waits on, and resumes that coroutine, which
      waits no more; everyone else is left as they were. */
  lemma DispatchKeeps<H>(l: Loop<H>, result: int)
    requires LoopInv(l) && l.cq != []
    ensures l.cq[0].Some? ==> l.cq[0].value in l.pool.live
    ensures LoopInv(Dispatch(l, result))
    ensures l.cq[0].Some? ==>
      var s := l.pool.live[l.cq[0].value];
      && s.handle in l.awaits && l.awaits[s.handle] == s.slot
      && l.submitted[s.slot] == s.handle
      && (forall i :: 0 <= i < |l.log| ==> l.log[i].slot != s.slot)
      && Dispatch(l, result).awaits == l.awaits - {s.handle}
      && Dispatch(l, result).log == l.log + [Delivery(s.slot, s.handle, result)]
  {
    hide PoolInv;
    DispatchNodes(l, result);
    DispatchWaiters(l, result);
    DispatchOnce(l, result);
  }

  lemma DispatchNodes<H>(l: Loop<H>, result: int)
    requires NodesInv(l) && l.cq != []
    ensures l.cq[0].Some? ==> l.cq[0].value in l.pool.live
    ensures NodesInv(Dispatch(l, result))
  {}

  lemma DispatchWaiters<H>(l: Loop<H>, result: int)
    requires WaitersInv(l) && l.cq != [] && (l.cq[0].Some? ==> l.cq[0].value in l.pool.live)
    ensures WaitersInv(Dispatch(l, result))
  {}

  lemma DispatchOnce<H>(l: Loop<H>, result: int)
    requires OnceInv(l) && WaitersInv(l) && l.cq != [] && (l.cq[0].Some? ==> l.cq[0].value in l.pool.live)
    ensures OnceInv(Dispatch(l, result))
  {}

  /** The counter at zero means that no coroutine waits for any completion, and that every
      submission ever made has been delivered. */
  lemma IdleLoop<H>(l: Loop<H>)
    requires LoopInv(l) && l.pool.inFlight == 0
    ensures l.awaits == map[] && l.pool.live == map[] && |l.log| == |l.submitted|
    ensures forall n: nat :: n < l.total ==> n in l.pool.free
  {}
}
