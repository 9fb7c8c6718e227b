/** The read, write and encode buffer: two indices into memory that is either its own and grows,
    or a fixed region of a larger registered block. To its users it is a queue of bytes. */
module ByteBuffer {
  import opened Wire

  class Buffer {
    var mem: array<byte>   // its own storage, or the block its fixed region lies in
    const base: nat        // where the region starts; 0 for its own storage
    const isFixed: bool
    var capacity: nat
    var writeIdx: nat
    var readIdx: nat

    predicate Valid()
      reads this
    {
      && readIdx <= writeIdx <= capacity
      && base + capacity <= mem.Length
      && (!isFixed ==> base == 0 && capacity == mem.Length)
    }

    /** The abstract value: the bytes written and not yet read. */
    function Unread(): (r: bytes)
      requires Valid()
      reads this, mem
      ensures |r| == writeIdx - readIdx
    {
      mem[base + readIdx..base + writeIdx]
    }

    constructor Dynamic(initialSize: nat)
      ensures Valid() && !isFixed && fresh(mem) && capacity == initialSize && Unread() == []
    {
      mem := new byte[initialSize](_ => 0);
      base, isFixed, capacity, writeIdx, readIdx := 0, false, initialSize, 0, 0;
    }

    constructor Fixed(block: array<byte>, offset: nat, size: nat)
      requires offset + size <= block.Length
      ensures Valid() && isFixed && mem == block && base == offset && capacity == size && Unread() == []
    {
      mem, base, isFixed, capacity, writeIdx, readIdx := block, offset, true, size, 0, 0;
    }

    function WritableBytes(): int
      reads this
    {
      capacity - writeIdx
    }

    function ReadableBytes(): int
      reads this
    {
      writeIdx - readIdx
    }

    /** memcpy to WriteBegin(), by a caller or by the kernel: nothing is readable yet, and only the
        writable part of this buffer's own region changes. */
    method CopyIn(data: bytes)
      requires Valid() && |data| <= WritableBytes()
      modifies mem
      ensures Unread() == old(Unread()) && mem[base + writeIdx..base + writeIdx + |data|] == data
      ensures forall j :: 0 <= j < mem.Length && !(base + writeIdx <= j < base + writeIdx + |data|) ==> mem[j] == old(mem[j])
    {
      forall j | 0 <= j < |data| {
        mem[base + writeIdx + j] := data[j];
      }
    }

    method HasWritten(len: nat)
      requires Valid() && len <= WritableBytes()
      modifies this`writeIdx
      ensures Valid() && writeIdx == old(writeIdx) + len
      ensures Unread() == old(Unread()) + old(mem[base + writeIdx..base + writeIdx + len])
    {
      writeIdx := writeIdx + len;
    }

    /** memcpy followed by HasWritten. */
    method Append(data: bytes)
      requires Valid() && |data| <= WritableBytes()
      modifies this`writeIdx, mem
      ensures Valid() && Unread() == old(Unread()) + data && WritableBytes() == old(WritableBytes()) - |data|
      ensures forall j :: 0 <= j < mem.Length && !(base <= j < base + capacity) ==> mem[j] == old(mem[j])
    {
      CopyIn(data);
      HasWritten(|data|);
    }

    method HasRead(len: nat)
      requires Valid() && len <= ReadableBytes()
      modifies this`readIdx
      ensures Valid() && Unread() == old(Unread())[len..]
    {
      readIdx := readIdx + len;
    }

    /** Move the unread bytes to the front of the region. */
    method Compact()
      requires Valid()
      modifies this`readIdx, this`writeIdx, mem
      ensures Valid() && readIdx == 0 && Unread() == old(Unread())
      ensures forall j :: 0 <= j < mem.Length && !(base <= j < base + capacity) ==> mem[j] == old(mem[j])
    {
      if readIdx == 0 { return; }
      var readable := writeIdx - readIdx;
      ghost var unread := Unread();
      forall j | 0 <= j < readable {
        mem[base + j] := mem[base + readIdx + j];
      }
      assert mem[base..base + readable] == unread;
      readIdx := 0;
      writeIdx := readable;
    }

    /** Make room for `len` bytes without touching the unread ones. It fails exactly when the buffer
        is fixed and the unread bytes leave too little of it. */
    method EnsureWritable(len: nat) returns (ok: bool)
      requires Valid()
      modifies this`mem, this`capacity, this`readIdx, this`writeIdx, mem
      ensures Valid() && Unread() == old(Unread())
      ensures ok <==> !isFixed || old(|Unread()|) + len <= old(capacity)
      ensures ok ==> WritableBytes() >= len
      ensures !ok ==> readIdx == 0 && WritableBytes() == capacity - |Unread()|
      ensures mem == old(mem) || (!isFixed && fresh(mem))
      ensures isFixed ==> capacity == old(capacity) && mem == old(mem)
      ensures forall j :: 0 <= j < old(mem).Length && !(base <= j < base + old(capacity)) ==> old(mem)[j] == old(mem[j])
    {
      if WritableBytes() >= len { return true; }
      Compact();
      if WritableBytes() >= len { return true; }
      if isFixed { return false; }
      capacity := writeIdx + len;
      var bigger := new byte[capacity](_ => 0);
      forall j | 0 <= j < mem.Length {
        bigger[j] := mem[j];
      }
      assert bigger[..writeIdx] == mem[..writeIdx];
      mem := bigger;
      return true;
    }
  }
}
