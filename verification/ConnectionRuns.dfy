/** Runs of one connection: any sequence of events the kernel may deliver. */
module ConnectionRuns {
  import opened Wire
  import opened Connection

  function Start(rcap: Option<nat>, wcap: Option<nat>): Conn {
    Fresh(rcap, wcap).(out := [])
  }

  /** The kernel may deliver any enabled event next; nothing else moves the connection. */
  ghost predicate IsRun(cfg: Config, c: Conn, es: seq<Event>)
    decreases |es|, 0
  {
    es == [] || (IsRun(cfg, c, es[..|es| - 1]) && Enabled(End(cfg, c, es[..|es| - 1]), es[|es| - 1]))
  }

  ghost function End(cfg: Config, c: Conn, es: seq<Event>): Conn
    requires IsRun(cfg, c, es)
    decreases |es|, 1
  {
    if es == [] then c else Next(cfg, End(cfg, c, es[..|es| - 1]), es[|es| - 1]).(out := [])
  }

  /** The byte stream the peer sent, put together from the chunks the kernel cut it into. */
  function BytesIn(es: seq<Event>): bytes {
    if es == [] then [] else
    var e := es[|es| - 1];
    if e.ReadDone? then BytesIn(es[..|es| - 1]) + e.data else BytesIn(es[..|es| - 1])
  }

  function Reads(es: seq<Event>): nat {
    if es == [] then 0 else Reads(es[..|es| - 1]) + if es[|es| - 1].ReadDone? then 1 else 0
  }

  lemma NextInbox(cfg: Config, c: Conn, e: Event)
    requires ConnInv(cfg, c) && Enabled(c, e)
    ensures Next(cfg, c, e).inb == if e.ReadDone? then Drained(c.inb, e.data) else c.inb
    ensures Next(cfg, c, e).wcap == c.wcap
  {
    if e.ReadDone? {
      hide OutboxInv;
      hide HandlersInv;
      hide InboxInv;
      var i := Receive(c.inb, e.data);
      HandleAllKeeps(cfg, c.(reading := false, inb := DrainInbox(i)), Drain(i.unread).msgs);
    }
  }

  lemma {:induction false} RunInv(cfg: Config, rcap: Option<nat>, wcap: Option<nat>, es: seq<Event>)
    requires IsRun(cfg, Start(rcap, wcap), es)
    ensures var c := End(cfg, Start(rcap, wcap), es);
      ConnInv(cfg, c) && c.inb.received == BytesIn(es) && c.inb.readCount == Reads(es) && c.inb.cap == rcap && c.wcap == wcap
    decreases |es|
  {
    hide ConnInv;
    hide Next;
    hide Enabled;
    hide Drain;
    if es == [] {
      FreshInv(cfg, rcap, wcap);
      Settled(cfg, Fresh(rcap, wcap));
    } else {
      var init, e := es[..|es| - 1], es[|es| - 1];
      RunInv(cfg, rcap, wcap, init);
      var c := End(cfg, Start(rcap, wcap), init);
      NextKeeps(cfg, c, e);
      NextInbox(cfg, c, e);
      Settled(cfg, Next(cfg, c, e));
    }
  }

  lemma Settled(cfg: Config, c: Conn)
    requires ConnInv(cfg, c)
    ensures ConnInv(cfg, c.(out := []))
  {}

  /** Every beginning of a run is a run. */
  lemma {:induction false} PrefixRun(cfg: Config, c: Conn, es: seq<Event>, k: nat)
    requires IsRun(cfg, c, es) && k <= |es|
    ensures IsRun(cfg, c, es[..k])
    decreases |es|
  {
    if k == |es| {
      assert es[..k] == es;
    } else {
      var init := es[..|es| - 1];
      PrefixRun(cfg, c, init, k);
      assert init[..k] == es[..k];
    }
  }

  lemma EmptyRun(cfg: Config, c: Conn)
    ensures IsRun(cfg, c, []) && End(cfg, c, []) == c && BytesIn([]) == []
  {}

  lemma RunStep(cfg: Config, c: Conn, es: seq<Event>, e: Event)
    requires IsRun(cfg, c, es) && Enabled(End(cfg, c, es), e)
    ensures IsRun(cfg, c, es + [e]) && End(cfg, c, es + [e]) == Next(cfg, End(cfg, c, es), e).(out := [])
    ensures BytesIn(es + [e]) == if e.ReadDone? then BytesIn(es) + e.data else BytesIn(es)
  {
    hide Next;
    hide Enabled;
    assert (es + [e])[..|es|] == es;
  }
}
