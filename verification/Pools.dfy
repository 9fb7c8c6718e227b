/** The fixed-buffer pool and the fixed-file table of one IoContext, and what connections hold. */
module Pools {
  import opened Wire
  import opened Totals

  datatype Pools = Pools(bufFree: seq<nat>, bufCount: nat, fileFree: seq<nat>, fileCount: nat)

  /** The indices one connection holds; None where the source keeps -1. */
  datatype Held = Held(file: Option<nat>, rbuf: Option<nat>, wbuf: Option<nat>)

  const NOTHING := Held(None, None, None)

  function Indices(n: nat): seq<nat> {
    seq(n, i requires 0 <= i < n => i)
  }

  /** The pools as constructed; a failed registration with the kernel leaves a count of zero. */
  function Initial(bufCount: nat, fileCount: nat): Pools {
    Pools(Indices(bufCount), bufCount, Indices(fileCount), fileCount)
  }

  /** Both pools hand out the back of their vector, or nothing, and take back at the same end. */
  function Rest(free: seq<nat>): seq<nat> {
    if free == [] then [] else free[..|free| - 1]
  }

  function Last(free: seq<nat>): Option<nat> {
    if free == [] then None else Some(free[|free| - 1])
  }

  function Give(free: seq<nat>, idx: Option<nat>): seq<nat> {
    if idx.Some? then free + [idx.value] else free
  }

  /** The CoroConnection constructor. `registered` says whether the kernel took the file. */
  function Acquire(p: Pools, registered: bool): Held {
    var left := Rest(p.bufFree);
    Held(if registered then Last(p.fileFree) else None, Last(p.bufFree), Last(left))
  }

  function AfterAcquire(p: Pools, registered: bool): Pools {
    p.(bufFree := Rest(Rest(p.bufFree)), fileFree := if registered then Rest(p.fileFree) else p.fileFree)
  }

  /** CoroConnection::Close on a connection that still holds `h`. */
  function Return(p: Pools, h: Held): Pools {
    p.(bufFree := Give(Give(p.bufFree, h.rbuf), h.wbuf), fileFree := Give(p.fileFree, h.file))
  }

  // ---------- conservation ----------

  function One(idx: Option<nat>): multiset<nat> {
    if idx.Some? then multiset{idx.value} else multiset{}
  }

  function BufsOf(h: Held): multiset<nat> { One(h.rbuf) + One(h.wbuf) }

  function FilesOf(h: Held): multiset<nat> { One(h.file) }

  /** The free indices and those held by connections make up the whole pool, each index once. */
  ghost predicate Conserved(p: Pools, hs: seq<Held>) {
    && multiset(p.bufFree) + Union(hs, BufsOf) == multiset(Indices(p.bufCount))
    && multiset(p.fileFree) + Union(hs, FilesOf) == multiset(Indices(p.fileCount))
  }

  lemma {:induction false} IndicesOnce(n: nat)
    ensures forall x: nat :: multiset(Indices(n))[x] == if x < n then 1 else 0
  {
    if n > 0 {
      IndicesOnce(n - 1);
      assert Indices(n) == Indices(n - 1) + [n - 1];
    } else {
      assert Indices(0) == [];
    }
  }

  lemma TakeBack(free: seq<nat>)
    ensures multiset(Rest(free)) + One(Last(free)) == multiset(free)
  {
    if free != [] { assert free == free[..|free| - 1] + [free[|free| - 1]]; }
  }

  lemma GiveBack(free: seq<nat>, idx: Option<nat>)
    ensures multiset(Give(free, idx)) == multiset(free) + One(idx)
  {}

  lemma InitialConserved(bufCount: nat, fileCount: nat)
    ensures Conserved(Initial(bufCount, fileCount), [])
  {}

  /** A pool that is not empty gives: the first free buffer is for reading, a second one for
      writing, and a file slot is taken if there is one and the kernel agrees. */
  lemma AcquireTakes(p: Pools, registered: bool)
    ensures var h, r := Acquire(p, registered), AfterAcquire(p, registered);
      && (h.rbuf.Some? <==> |p.bufFree| >= 1) && (h.wbuf.Some? <==> |p.bufFree| >= 2)
      && (h.file.Some? <==> registered && p.fileFree != [])
      && p.bufFree == r.bufFree + Opt(h.wbuf) + Opt(h.rbuf) && p.fileFree == r.fileFree + Opt(h.file)
      && r.bufCount == p.bufCount && r.fileCount == p.fileCount
  {
    hide Rest;
    hide Last;
    LastTaken(p.bufFree);
    LastTaken(Rest(p.bufFree));
    LastTaken(p.fileFree);
  }

  lemma LastTaken(free: seq<nat>)
    ensures (Last(free).Some? <==> free != []) && free == Rest(free) + Opt(Last(free))
  {}

  function Opt(idx: Option<nat>): seq<nat> {
    if idx.Some? then [idx.value] else []
  }

  /** Nothing is missing from a new pool. */
  lemma InitialIsFull(bufCount: nat, fileCount: nat)
    ensures var p := Initial(bufCount, fileCount);
      && p.bufCount == |p.bufFree| == bufCount && p.fileCount == |p.fileFree| == fileCount
      && (forall i: nat :: i < bufCount ==> i in p.bufFree) && (forall i: nat :: i < fileCount ==> i in p.fileFree)
  {
    var p := Initial(bufCount, fileCount);
    forall i: nat | i < bufCount ensures i in p.bufFree { assert p.bufFree[i] == i; }
    forall i: nat | i < fileCount ensures i in p.fileFree { assert p.fileFree[i] == i; }
  }

  lemma AcquireConserves(p: Pools, registered: bool, hs: seq<Held>)
    requires Conserved(p, hs)
    ensures Conserved(AfterAcquire(p, registered), hs + [Acquire(p, registered)])
  {
    var h := Acquire(p, registered);
    UnionPush(hs, h, BufsOf);
    UnionPush(hs, h, FilesOf);
    TakeBack(p.bufFree);
    TakeBack(Rest(p.bufFree));
    TakeBack(p.fileFree);
    hide Union;
    hide Rest;
    hide Last;
  }

  lemma ReturnConserves(p: Pools, hs: seq<Held>, i: nat)
    requires Conserved(p, hs) && i < |hs|
    ensures Conserved(Return(p, hs[i]), hs[i := NOTHING])
  {
    var h := hs[i];
    NothingHeld();
    UnionUpdate(hs, i, NOTHING, BufsOf);
    UnionUpdate(hs, i, NOTHING, FilesOf);
    GiveBack(p.bufFree, h.rbuf);
    GiveBack(Give(p.bufFree, h.rbuf), h.wbuf);
    GiveBack(p.fileFree, h.file);
    hide Union;
    hide Give;
    hide One;
    hide Indices;
    MoveBack(multiset(p.bufFree), BufsOf(h), Union(hs, BufsOf), Union(hs[i := NOTHING], BufsOf));
    MoveBack(multiset(p.fileFree), FilesOf(h), Union(hs, FilesOf), Union(hs[i := NOTHING], FilesOf));
    assert multiset(p.bufFree) + One(h.rbuf) + One(h.wbuf) == multiset(p.bufFree) + BufsOf(h);
  }

  lemma MoveBack(free: multiset<nat>, mine: multiset<nat>, before: multiset<nat>, after: multiset<nat>)
    requires after + mine == before + multiset{}
    ensures (free + mine) + after == free + before
  {
    assert free + mine + after == free + (after + mine);
  }

  lemma NothingHeld()
    ensures BufsOf(NOTHING) == FilesOf(NOTHING) == multiset{}
  {}

  lemma OnlyHere<T>(free: seq<nat>, count: nat, s: seq<T>, f: T -> multiset<nat>, i: nat, x: nat)
    requires multiset(free) + Union(s, f) == multiset(Indices(count))
    requires i < |s| && x in f(s[i])
    ensures x < count && x !in free && f(s[i])[x] == 1
    ensures forall j :: 0 <= j < |s| && j != i ==> x !in f(s[j])
  {
    IndicesOnce(count);
    UnionHas(s, i, f);
    hide Indices;
    hide Union;
    assert multiset(Indices(count))[x] == multiset(free)[x] + Union(s, f)[x];
    assert f(s[i])[x] <= Union(s, f)[x];
    forall j | 0 <= j < |s| && j != i ensures x !in f(s[j]) {
      UnionHasTwo(s, if i < j then i else j, if i < j then j else i, f);
      assert f(s[i])[x] + f(s[j])[x] <= Union(s, f)[x];
    }
  }

  /** An index held by one connection is on no free list and held by no other connection, and its
      read and write buffers differ. */
  lemma HeldExclusively(p: Pools, hs: seq<Held>, i: nat, x: nat)
    requires Conserved(p, hs) && i < |hs|
    ensures hs[i].rbuf == Some(x) || hs[i].wbuf == Some(x) ==>
      && x < p.bufCount && x !in p.bufFree && hs[i].rbuf != hs[i].wbuf
      && forall j :: 0 <= j < |hs| && j != i ==> hs[j].rbuf != Some(x) && hs[j].wbuf != Some(x)
    ensures hs[i].file == Some(x) ==>
      && x < p.fileCount && x !in p.fileFree
      && forall j :: 0 <= j < |hs| && j != i ==> hs[j].file != Some(x)
  {
    hide Union;
    if hs[i].rbuf == Some(x) || hs[i].wbuf == Some(x) {
      assert x in BufsOf(hs[i]);
      OnlyHere(p.bufFree, p.bufCount, hs, BufsOf, i, x);
      forall j | 0 <= j < |hs| && j != i ensures hs[j].rbuf != Some(x) && hs[j].wbuf != Some(x) {
        assert x !in BufsOf(hs[j]);
      }
    }
    if hs[i].file == Some(x) {
      assert x in FilesOf(hs[i]);
      OnlyHere(p.fileFree, p.fileCount, hs, FilesOf, i, x);
      forall j | 0 <= j < |hs| && j != i ensures hs[j].file != Some(x) {
        assert x !in FilesOf(hs[j]);
      }
    }
  }

  /** Where the region of buffer `i` starts in the pool. */
  function Offset(i: nat, size: nat): nat { i * size }

  /** Buffer `i` occupies bytes i * size up to (i + 1) * size of the pool: distinct buffers do not
      meet, and none leaves the pool. */
  lemma RegionsDisjoint(i: nat, j: nat, size: nat, count: nat)
    requires i < j < count
    ensures Offset(i, size) == i * size && Offset(i, size) + size <= Offset(j, size)
    ensures Offset(j, size) + size <= Offset(count, size) == count * size
  {
    RegionInPool(i, size, j);
    RegionInPool(j, size, count);
  }

  lemma RegionInPool(i: nat, size: nat, count: nat)
    requires i < count
    ensures Offset(i, size) + size <= Offset(count, size)
  {
    assert (i + 1) * size == i * size + size;
    assert (i + 1) * size <= count * size;
  }

  // ---------- every sequence of opens and closes ----------

  datatype PoolOp = OpenOne(registered: bool) | CloseOne(which: nat)

  /** The pools and the connections' holdings after `ops`; closing a connection again, or one
      that does not exist, does nothing. */
  function After(p: Pools, hs: seq<Held>, ops: seq<PoolOp>): (Pools, seq<Held>)
    decreases |ops|
  {
    if ops == [] then (p, hs) else
    match ops[0]
    case OpenOne(r) => After(AfterAcquire(p, r), hs + [Acquire(p, r)], ops[1..])
    case CloseOne(i) =>
      if i < |hs| then After(Return(p, hs[i]), hs[i := NOTHING], ops[1..]) else After(p, hs, ops[1..])
  }

  /** Conservation over every sequence of opens, failed registrations and repeated closes. */
  lemma {:induction false} PoolsConserved(p: Pools, hs: seq<Held>, ops: seq<PoolOp>)
    requires Conserved(p, hs)
    ensures Conserved(After(p, hs, ops).0, After(p, hs, ops).1)
    decreases |ops|
  {
    hide Conserved;
    if ops != [] {
      match ops[0]
      case OpenOne(r) =>
        AcquireConserves(p, r, hs);
        PoolsConserved(AfterAcquire(p, r), hs + [Acquire(p, r)], ops[1..]);
      case CloseOne(i) =>
        if i < |hs| {
          ReturnConserves(p, hs, i);
          PoolsConserved(Return(p, hs[i]), hs[i := NOTHING], ops[1..]);
        } else {
          PoolsConserved(p, hs, ops[1..]);
        }
    }
  }
}
