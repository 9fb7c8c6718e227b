/** The pool of request nodes: the intrusive free list of IoContext, as a value. `N` is whatever
    identifies a node, `S` what a submission stores in it. */
module RequestPool {
  import opened Totals

  datatype Pool<N, S> = Pool(free: seq<N>, live: map<N, S>, inFlight: int)

  /** The node a submission gets: the head of the free list, or a new one. */
  function Pick<N, S>(p: Pool<N, S>, spare: N): N {
    if p.free == [] then spare else p.free[0]
  }

  function Submit<N, S>(p: Pool<N, S>, spare: N, s: S): Pool<N, S> {
    Pool(if p.free == [] then [] else p.free[1..], p.live[Pick(p, spare) := s], p.inFlight + 1)
  }

  function Release<N, S>(p: Pool<N, S>, n: N): Pool<N, S> {
    Pool([n] + p.free, p.live - {n}, p.inFlight - 1)
  }

  /** No node is on the free list twice, or on it while in use; the counter counts. */
  ghost predicate PoolInv<N, S>(p: Pool<N, S>) {
    && Distinct(p.free)
    && (forall n :: n in p.free ==> n !in p.live)
    && p.inFlight == |p.live|
  }

  lemma SubmitKeeps<N, S>(p: Pool<N, S>, spare: N, s: S)
    requires PoolInv(p) && (p.free == [] ==> spare !in p.live)
    ensures PoolInv(Submit(p, spare, s)) && Pick(p, spare) !in p.live
  {}

  lemma ReleaseKeeps<N, S>(p: Pool<N, S>, n: N)
    requires PoolInv(p) && n in p.live
    ensures PoolInv(Release(p, n))
  {}

  /** The node just freed is the next one handed out: a coroutine resumed by its completion may
      find itself on the very same node, and the pool is as before but for what is stored. */
  lemma ResubmitReusesNode<N, S>(p: Pool<N, S>, n: N, spare: N, s: S)
    requires PoolInv(p) && n in p.live
    ensures Pick(Release(p, n), spare) == n
    ensures Submit(Release(p, n), spare, s) == p.(live := p.live[n := s])
  {}
}
