/** IoContext as the object it is: request nodes threaded on an intrusive free list, the two index
    vectors, and the counter. The kernel's replies are parameters. */
module IoContexts {
  import opened Wire
  import opened RequestPool
  import opened Pools

  /** The result field of an awaitable, where a completion is written. */
  class Slot {
    var value: int
    constructor () ensures value == 0 { value := 0; }
  }

  class RequestData {
    var handle: Option<nat>
    var result: Slot?
    var nextFree: RequestData?

    constructor (h: nat, slot: Slot)
      ensures handle == Some(h) && result == slot && nextFree == null
    {
      handle, result, nextFree := Some(h), slot, null;
    }
  }

  function NodeAt(list: seq<RequestData>, i: nat): RequestData? {
    if i < |list| then list[i] else null
  }

  /** What a submission stores in its node. */
  datatype Stored = Stored(handle: nat, result: Slot)

  class IoContext {
    var reqPoolHead: RequestData?
    var inFlight: int
    ghost var free: seq<RequestData>            // the free list, head first
    ghost var live: map<RequestData, Stored>    // nodes out with the kernel

    var bufFree: seq<nat>
    var fileFree: seq<nat>
    const bufCount: nat
    const bufSize: nat
    const fileCount: nat
    const memory: array<byte>                   // the registered block

    ghost function Requests(): Pool<RequestData, Stored>
      reads this`free, this`live, this`inFlight
    {
      Pool(free, live, inFlight)
    }

    ghost function Resources(): Pools
      reads this`bufFree, this`fileFree
    {
      Pools(bufFree, bufCount, fileFree, fileCount)
    }

    /** Following nextFree from the head visits `free` in order and ends: being free of
        duplicates, the list has no cycle. */
    ghost predicate Threaded()
      reads this`reqPoolHead, this`free, free
    {
      && reqPoolHead == NodeAt(free, 0)
      && forall i :: 0 <= i < |free| ==> free[i].nextFree == NodeAt(free, i + 1)
    }

    ghost predicate RequestsValid()
      reads this`reqPoolHead, this`free, this`live, this`inFlight, free, live.Keys
    {
      Threaded() && PoolInv(Requests()) && StoredInNodes()
    }

    ghost predicate StoredInNodes()
      reads this`live, live.Keys
    {
      forall n :: n in live ==> n.handle == Some(live[n].handle) && n.result == live[n].result
    }

    ghost predicate ResourcesValid()
      reads this`bufFree
    {
      memory.Length == Offset(bufCount, bufSize) && forall i :: i in bufFree ==> i < bufCount
    }

    /** `buffersOk` and `filesOk` say whether the kernel took the registrations. */
    constructor (count: nat, size: nat, files: nat, buffersOk: bool, filesOk: bool)
      ensures RequestsValid() && ResourcesValid() && fresh(memory) && Requests() == Pool([], map[], 0)
      ensures Resources() == Initial(if buffersOk then count else 0, if filesOk then files else 0)
      ensures buffersOk ==> bufCount == |bufFree| == count && bufSize == size && forall i :: 0 <= i < count ==> bufFree[i] == i
      ensures filesOk ==> fileCount == |fileFree| == files && forall i :: 0 <= i < files ==> fileFree[i] == i
      ensures !buffersOk ==> bufFree == [] && bufSize == 0
      ensures !filesOk ==> fileFree == []
    {
      reqPoolHead, inFlight, free, live := null, 0, [], map[];
      var n, sz := if buffersOk then count else 0, if buffersOk then size else 0;
      bufCount, bufSize, bufFree := n, sz, Indices(n);
      memory := new byte[Offset(n, sz)](_ => 0);
      fileCount := if filesOk then files else 0;
      fileFree := Indices(if filesOk then files else 0);
    }

    method AllocRequestData(h: nat, slot: Slot) returns (req: RequestData)
      requires RequestsValid()
      modifies this`reqPoolHead, this`free, reqPoolHead
      ensures free == if old(free) == [] then [] else old(free)[1..]
      ensures old(free) == [] ==> fresh(req)
      ensures old(free) != [] ==> req == old(free)[0]
      ensures Threaded() && req !in free && req !in live
      ensures req.handle == Some(h) && req.result == slot && req.nextFree == null
      ensures StoredInNodes()
    {
      ghost var all := free;
      if reqPoolHead != null {
        assert all[0].nextFree == NodeAt(all, 1);
        req := reqPoolHead;
        reqPoolHead := req.nextFree;
        free := free[1..];
        req.handle := Some(h);
        req.result := slot;
        req.nextFree := null;
        forall i | 0 <= i < |free| ensures free[i].nextFree == NodeAt(free, i + 1) {
          assert old(all[i + 1].nextFree) == NodeAt(all, i + 2);
        }
      } else {
        req := new RequestData(h, slot);
      }
    }

    /** Suspend coroutine `h` on an operation: its node comes from the front of the free list, or is
        new, and is out with the kernel from now on. */
    method Submit(h: nat, slot: Slot) returns (req: RequestData)
      requires RequestsValid()
      modifies this`reqPoolHead, this`free, this`live, this`inFlight, reqPoolHead
      ensures RequestsValid() && req in live && (fresh(req) || req in old(free))
      ensures req == Pick(old(Requests()), req)
      ensures Requests() == RequestPool.Submit(old(Requests()), req, Stored(h, slot))
    {
      req := AllocRequestData(h, slot);
      SubmitKeeps(old(Requests()), req, Stored(h, slot));
      live := live[req := Stored(h, slot)];
      inFlight := inFlight + 1;
    }

    method FreeRequestData(req: RequestData)
      requires Threaded() && req !in free
      modifies this`reqPoolHead, this`free, req
      ensures free == [req] + old(free) && Threaded()
    {
      req.handle := None;
      req.result := null;
      req.nextFree := reqPoolHead;
      reqPoolHead := req;
      free := [req] + free;
      forall i | 0 < i < |free| ensures free[i].nextFree == NodeAt(free, i + 1) {
        assert old(free[i - 1].nextFree) == NodeAt(old(free), i);
      }
    }

    /** One completion of the dispatch loop: write the result where the submitter looks for it, free
        the node, and hand over the coroutine to resume. */
    method Dispatch(req: RequestData, result: int) returns (handle: nat)
      requires RequestsValid() && req in live
      modifies this`reqPoolHead, this`free, this`live, this`inFlight, req, live[req].result
      ensures RequestsValid() && handle == old(live[req]).handle
      ensures old(live[req]).result.value == result
      ensures Requests() == Release(old(Requests()), req)
    {
      ReleaseKeeps(Requests(), req);
      req.result.value := result;
      handle := req.handle.value;
      FreeRequestData(req);
      inFlight := inFlight - 1;
      live := live - {req};
    }

    /** The last free index, and where its region starts, as long as there is one; else -1. */
    method AllocateBuffer() returns (idx: int, offset: nat)
      requires ResourcesValid()
      modifies this`bufFree
      ensures ResourcesValid() && bufFree == Rest(old(bufFree)) && AsOption(idx) == Last(old(bufFree))
      ensures old(bufFree) == [] ==> idx == -1 && bufFree == []
      ensures old(bufFree) != [] ==> idx >= 0 && old(bufFree) == bufFree + [idx]
      ensures idx >= 0 ==> idx < bufCount && offset == idx * bufSize == Offset(idx, bufSize) && offset + bufSize <= memory.Length
    {
      if bufFree == [] { return -1, 0; }
      idx := bufFree[|bufFree| - 1];
      assert idx in bufFree;
      bufFree := bufFree[..|bufFree| - 1];
      assert forall i :: i in bufFree ==> i in old(bufFree);
      RegionInPool(idx, bufSize, bufCount);
      offset := Offset(idx, bufSize);
    }

    method FreeBuffer(idx: nat)
      requires ResourcesValid() && idx < bufCount
      modifies this`bufFree
      ensures ResourcesValid() && bufFree == Give(old(bufFree), Some(idx)) == old(bufFree) + [idx]
    {
      bufFree := bufFree + [idx];
    }

    /** `accepted` is the kernel's reply to the table update; a refused slot goes back. */
    method RegisterFile(accepted: bool) returns (idx: int)
      requires ResourcesValid()
      modifies this`fileFree
      ensures ResourcesValid() && fileFree == if accepted then Rest(old(fileFree)) else old(fileFree)
      ensures AsOption(idx) == if accepted then Last(old(fileFree)) else None
      ensures accepted && old(fileFree) != [] ==> idx >= 0 && old(fileFree) == fileFree + [idx]
      ensures !accepted || old(fileFree) == [] ==> idx == -1 && fileFree == old(fileFree)
    {
      if fileFree == [] { return -1; }
      idx := fileFree[|fileFree| - 1];
      fileFree := fileFree[..|fileFree| - 1];
      if !accepted {
        fileFree := fileFree + [idx];
        idx := -1;
      }
    }

    method UnregisterFile(idx: nat)
      requires ResourcesValid()
      modifies this`fileFree
      ensures ResourcesValid() && fileFree == Give(old(fileFree), Some(idx)) == old(fileFree) + [idx]
    {
      fileFree := fileFree + [idx];
    }
  }

  /** The source's -1 for no index. */
  function AsOption(idx: int): Option<nat> {
    if idx >= 0 then Some(idx) else None
  }
}
