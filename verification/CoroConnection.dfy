/** CoroConnection: acquiring and returning fixed resources, sizing reads, and the write loop. */
module CoroConnections {
  import opened Wire
  import opened Totals
  import opened Connection
  import opened Pools
  import opened ByteBuffer
  import opened IoContexts

  class CoroConnection {
    const ctx: IoContext
    var closed: bool
    var fileIdx: int
    var readIdx: int
    var writeIdx: int
    const writeOffset: nat       // where the fixed staging buffer starts
    const readBuffer: Buffer

    ghost function Holding(): Held
      reads this
    {
      Held(AsOption(fileIdx), AsOption(readIdx), AsOption(writeIdx))
    }

    ghost predicate Valid()
      reads this, ctx`bufFree, readBuffer
    {
      && ctx.ResourcesValid() && readBuffer.Valid()
      && (readIdx >= 0 ==>
            && readIdx < ctx.bufCount && readBuffer.isFixed && readBuffer.capacity == ctx.bufSize
            && readBuffer.mem == ctx.memory && readBuffer.base == Offset(readIdx, ctx.bufSize))
      && (writeIdx >= 0 ==>
            && writeIdx < ctx.bufCount && writeOffset == Offset(writeIdx, ctx.bufSize)
            && writeOffset + ctx.bufSize <= ctx.memory.Length)
      && (!closed && readIdx < 0 ==> !readBuffer.isFixed)
      && (closed ==> Holding() == NOTHING)
    }

    /** Take a file slot and two buffers, as far as there are any. */
    constructor (io: IoContext, accepted: bool)
      requires io.ResourcesValid()
      modifies io`bufFree, io`fileFree
      ensures Valid() && ctx == io && !closed && fresh(readBuffer) && readBuffer.Unread() == []
      ensures io.Resources() == AfterAcquire(old(io.Resources()), accepted)
      ensures Holding() == Acquire(old(io.Resources()), accepted)
      ensures readIdx >= 0 <==> |old(io.bufFree)| >= 1
      ensures writeIdx >= 0 <==> |old(io.bufFree)| >= 2
      ensures fileIdx >= 0 <==> accepted && old(io.fileFree) != []
      ensures readIdx >= 0 ==> readBuffer.isFixed && readBuffer.base == readIdx * io.bufSize && readBuffer.capacity == io.bufSize
      ensures writeIdx >= 0 ==> writeOffset == writeIdx * io.bufSize
    {
      hide Offset;
      ctx, closed := io, false;
      var file := io.RegisterFile(accepted);
      var r, rOffset := io.AllocateBuffer();
      var rb: Buffer;
      if r >= 0 {
        rb := new Buffer.Fixed(io.memory, rOffset, io.bufSize);
      } else {
        rb := new Buffer.Dynamic(65536);
      }
      var w, wOffset := io.AllocateBuffer();
      fileIdx, readIdx, writeIdx, readBuffer, writeOffset := file, r, w, rb, wOffset;
    }

    /** Give everything back, once: a second Close does nothing. */
    method Close()
      requires Valid()
      modifies this`closed, this`fileIdx, this`readIdx, this`writeIdx, ctx`bufFree, ctx`fileFree
      ensures Valid() && closed && Holding() == NOTHING
      ensures ctx.Resources() == if old(closed) then old(ctx.Resources()) else Return(old(ctx.Resources()), old(Holding()))
    {
      hide Offset;
      if closed { return; }
      closed := true;
      if fileIdx >= 0 {
        ctx.UnregisterFile(fileIdx);
        fileIdx := -1;
      }
      if readIdx >= 0 {
        ctx.FreeBuffer(readIdx);
        readIdx := -1;
      }
      if writeIdx >= 0 {
        ctx.FreeBuffer(writeIdx);
        writeIdx := -1;
      }
    }

    /** Prepare a read: the room offered to the kernel never exceeds what unread bytes leave of a
        fixed buffer, and is zero exactly when they leave nothing. */
    method PrepareRead() returns (room: nat)
      requires Valid() && !closed
      modifies readBuffer, readBuffer.mem
      ensures readBuffer.Valid() && readBuffer.Unread() == old(readBuffer.Unread()) && room == readBuffer.WritableBytes()
      ensures readIdx >= 0 ==> room + |readBuffer.Unread()| <= ctx.bufSize
      ensures room == 0 <==> readIdx >= 0 && |readBuffer.Unread()| == ctx.bufSize
      ensures readIdx < 0 ==> room >= 4096
    {
      hide Offset;
      if readIdx >= 0 {
        var ok := readBuffer.EnsureWritable(1);
      } else {
        var ok := readBuffer.EnsureWritable(4096);
      }
      room := readBuffer.WritableBytes();
    }

    function StagingCap(): Option<nat>
      reads this`writeIdx
    {
      if writeIdx >= 0 then Some(ctx.bufSize) else None
    }

    /** Stage the next part of `data` for one write operation: at most one fixed buffer of it, copied
        into that buffer and nowhere else, or all of it when there is none. */
    method WriteOnce(data: bytes, from: nat) returns (staged: bytes)
      requires Valid() && from <= |data|
      modifies ctx.memory
      ensures |staged| == Staged(StagingCap(), |data| - from) && Offered(data, StagingCap(), from, staged)
      ensures writeIdx >= 0 ==> |staged| <= ctx.bufSize && ctx.memory[writeOffset..writeOffset + |staged|] == staged
      ensures forall j :: 0 <= j < ctx.memory.Length && !(writeOffset <= j < writeOffset + ctx.bufSize) ==>
        ctx.memory[j] == old(ctx.memory[j])
    {
      hide Offset;
      var len := |data| - from;
      if writeIdx >= 0 {
        var n := if len < ctx.bufSize then len else ctx.bufSize;
        forall j | 0 <= j < n {
          ctx.memory[writeOffset + j] := data[from + j];
        }
        staged := ctx.memory[writeOffset..writeOffset + n];
        assert forall j :: 0 <= j < n ==> staged[j] == ctx.memory[writeOffset + j] == data[from..from + n][j];
        assert staged == data[from..from + n];
      } else {
        staged := data[from..];
        assert data[from..] == data[from..from + len];
      }
    }

    /** The whole of Write against any kernel: `kernel(i, n)` is the result of the i-th operation,
        which offers n bytes. Each operation offers what follows the bytes taken before it, all but
        the last succeed, and Write goes on until everything is taken or an operation fails. It
        returns the failing result, or the length of `data` as an int. */
    method Write(data: bytes, kernel: (nat, nat) -> int) returns (result: int, offers: seq<bytes>, results: seq<int>)
      requires Valid() && forall i, n :: kernel(i, n) <= n
      modifies ctx.memory
      ensures Taken(results) <= |data| && InTurn(data, StagingCap(), offers, results)
      ensures forall i :: 0 <= i < |results| ==> results[i] == kernel(i, |offers[i]|)
      ensures forall i :: 0 <= i < |results| - 1 ==> results[i] > 0
      ensures if Taken(results) == |data|
        then IsInt(result) && (|data| - result) % TWO_32 == 0 && (|data| < 0x8000_0000 ==> result == |data|)
        else results != [] && result == results[|results| - 1] <= 0
      ensures |results| <= |data| && forall j :: 0 <= j < ctx.memory.Length && !(writeOffset <= j < writeOffset + ctx.bufSize) ==>
        ctx.memory[j] == old(ctx.memory[j])
    {
      hide Offset;
      hide Taken;
      hide Offered;
      hide CastToInt;
      offers, results := [], [];
      NothingTaken();
      var sent, remaining := 0, |data|;
      while remaining > 0
        invariant 0 <= remaining && sent + remaining == |data| && sent == Taken(results) && |results| <= sent
        invariant InTurn(data, StagingCap(), offers, results)
        invariant forall i :: 0 <= i < |results| ==> results[i] == kernel(i, |offers[i]|) > 0
        invariant forall j :: 0 <= j < ctx.memory.Length && !(writeOffset <= j < writeOffset + ctx.bufSize) ==>
          ctx.memory[j] == old(ctx.memory[j])
        decreases remaining
      {
        var staged := WriteOnce(data, sent);
        StagedLength(data, StagingCap(), sent, staged);
        var w := kernel(|results|, |staged|);
        NextInTurn(data, StagingCap(), offers, results, staged, w);
        TakenPush(results, w);
        offers, results := offers + [staged], results + [w];
        if w <= 0 { return w, offers, results; }
        sent, remaining := sent + w, remaining - w;
      }
      CastCongruent(|data|);
      result := CastToInt(|data|);
    }
  }

  predicate IsInt(x: int) {
    -0x8000_0000 <= x < 0x8000_0000
  }

  lemma CastCongruent(len: nat)
    ensures IsInt(CastToInt(len)) && (len - CastToInt(len)) % TWO_32 == 0
    ensures len < 0x8000_0000 ==> CastToInt(len) == len
  {
    var q := len / TWO_32;
    assert len == q * TWO_32 + len % TWO_32;
  }

  /** `offer` is the next part of `data` after its first `from` bytes: as much as the staging buffer
      holds, or all of it. */
  predicate Offered(data: bytes, cap: Option<nat>, from: nat, offer: bytes) {
    && from + |offer| <= |data| && offer == data[from..from + |offer|]
    && (if cap.Some? && cap.value < |data| - from then |offer| == cap.value else |offer| == |data| - from)
  }

  /** The i-th operation offers what follows the bytes that those before it took. */
  ghost predicate InTurn(data: bytes, cap: Option<nat>, offers: seq<bytes>, results: seq<int>) {
    |offers| == |results| && forall i :: 0 <= i < |offers| ==> Offered(data, cap, Taken(results[..i]), offers[i])
  }

  lemma StagedLength(data: bytes, cap: Option<nat>, from: nat, offer: bytes)
    requires Offered(data, cap, from, offer)
    ensures from + |offer| <= |data|
  {}

  lemma NextInTurn(data: bytes, cap: Option<nat>, offers: seq<bytes>, results: seq<int>, offer: bytes, w: int)
    requires InTurn(data, cap, offers, results) && Offered(data, cap, Taken(results), offer)
    ensures InTurn(data, cap, offers + [offer], results + [w])
  {
    hide Offered;
    hide Taken;
    TakenPush(results, w);
    assert results[..|results|] == results;
  }

  /** A read completes into the fixed buffer of `a` while `b` has unread bytes in its own: both lie
      in the one registered block, and only `a` sees a difference. */
  method CompleteRead(a: CoroConnection, b: CoroConnection, data: bytes)
    requires a.Valid() && b.Valid() && a.ctx == b.ctx && a.readBuffer != b.readBuffer
    requires a.readIdx >= 0 && b.readIdx >= 0 && a.readIdx != b.readIdx
    requires |data| <= a.readBuffer.WritableBytes()
    modifies a.readBuffer`writeIdx, a.ctx.memory
    ensures a.Valid() && a.readBuffer.Unread() == old(a.readBuffer.Unread()) + data
    ensures b.Valid() && b.readBuffer.Unread() == old(b.readBuffer.Unread())
  {
    hide Offset;
    RegionsApart(a, b);
    assert a.readBuffer.mem == b.readBuffer.mem == a.ctx.memory;
    a.readBuffer.Append(data);
    assert b.readBuffer.Unread() == old(b.readBuffer.Unread());
  }

  lemma RegionsApart(a: CoroConnection, b: CoroConnection)
    requires a.Valid() && b.Valid() && a.ctx == b.ctx
    requires a.readIdx >= 0 && b.readIdx >= 0 && a.readIdx != b.readIdx
    ensures var x, y := a.readBuffer, b.readBuffer;
      x.base + x.capacity <= y.base || y.base + y.capacity <= x.base
  {
    if a.readIdx < b.readIdx {
      RegionsDisjoint(a.readIdx, b.readIdx, a.ctx.bufSize, a.ctx.bufCount);
    } else {
      RegionsDisjoint(b.readIdx, a.readIdx, a.ctx.bufSize, a.ctx.bufCount);
    }
  }
}
