/** `SSLBuffer`: an array with a window of contents that grows at its end and is consumed at its start.
    The start of the window is kept in 16 bits. */
module SslBuffer {
  import opened Bytes

  const ALIGN_PAYLOAD := 8
  const MAX_OFFSET := 0xffff

  /** `offset_ += (uint16_t)len`. */
  function NextOffset(offset: nat, len: nat): nat {
    (offset + len) % 0x1_0000
  }

  lemma NextOffsetAt(offset: nat, len: nat)
    ensures NextOffset(offset, len) <= offset + len
    ensures offset + len <= MAX_OFFSET ==> NextOffset(offset, len) == offset + len
    ensures MAX_OFFSET < offset + len < 0x2_0000 ==> NextOffset(offset, len) == offset + len - 0x1_0000
  {
  }

  lemma RestIsSlice(buf: seq<byte>, offset: nat, size: nat, len: nat)
    requires len <= size && offset + size <= |buf|
    ensures buf[offset..offset + size][len..] == buf[offset + len..offset + size]
  {
  }

  /** Consuming `len` bytes of a window leaves the rest of it. */
  ghost predicate Survives(buf: seq<byte>, offset: nat, size: nat, len: nat)
    requires len <= size && offset + size <= |buf|
  {
    NextOffsetAt(offset, len);
    buf[NextOffset(offset, len)..NextOffset(offset, len) + (size - len)] == buf[offset..offset + size][len..]
  }

  /** An allocation of this capacity always keeps its contents: wherever in its first eight bytes the window
      starts, whatever the bytes are, and however much of it is consumed. */
  ghost predicate AlwaysSurvives(cap: nat) {
    forall buf: seq<byte>, offset: nat, size: nat, len: nat ::
      |buf| == cap + ALIGN_PAYLOAD - 1 && offset < ALIGN_PAYLOAD && len <= size <= cap ==>
        Survives(buf, offset, size, len)
  }

  /** That is so exactly for capacities up to 65529. With that one the offset can wrap, but only when nothing
      is left. */
  lemma ContentsSurvive(cap: nat)
    requires cap <= 0xffff
    ensures AlwaysSurvives(cap) <==> cap + ALIGN_PAYLOAD - 1 <= 0x1_0000
  {
    if cap + ALIGN_PAYLOAD - 1 <= 0x1_0000 {
      forall buf: seq<byte>, offset: nat, size: nat, len: nat |
        |buf| == cap + ALIGN_PAYLOAD - 1 && offset < ALIGN_PAYLOAD && len <= size <= cap
        ensures Survives(buf, offset, size, len)
      {
        NextOffsetAt(offset, len);
      }
    } else {
      LargeLoses(cap);
    }
  }

  lemma LargeLoses(cap: nat)
    requires cap <= 0xffff && cap + ALIGN_PAYLOAD - 1 > 0x1_0000
    ensures !AlwaysSurvives(cap)
  {
    var offset, len := ALIGN_PAYLOAD - 1, 0x1_0000 - (ALIGN_PAYLOAD - 1);
    var buf: seq<byte> := seq(cap + ALIGN_PAYLOAD - 1, i => if i < 0x1_0000 then 0 else 1);
    NextOffsetAt(offset, len);
    assert buf[offset..offset + cap][len..][0] == 1;
    assert buf[0..cap - len][0] == 0;
    assert !Survives(buf, offset, cap, len);
  }

  class Buffer {
    var buf: array?<byte>
    var offset: nat
    var size: nat
    var cap: nat
    /** Whether the buffer was ever made so large that contents can be lost, and whether they were: the
        offset has wrapped with something left. */
    ghost var cramped: bool
    ghost var wrapped: bool

    ghost predicate Valid()
      reads this
    {
      && size <= cap <= 0xffff
      && (if buf == null then cap == 0 else offset + cap <= buf.Length)
      && offset + cap < 0x2_0000
      && (!cramped ==> offset + cap <= 0x1_0000)
      && (wrapped ==> cramped)
    }

    ghost function Contents(): (s: seq<byte>)
      requires Valid()
      reads this, buf
      ensures |s| == size
    {
      if buf == null then [] else buf[offset..offset + size]
    }

    /** What stands in front of the contents. */
    ghost function Front(): seq<byte>
      requires Valid()
      reads this, buf
    {
      if buf == null then [] else buf[..offset]
    }

    /** Consuming so much makes the offset wrap while something is left. */
    predicate Wraps(len: nat)
      reads this
    {
      offset + len > MAX_OFFSET && len < size
    }

    /** What consuming so much leaves: the rest of the contents, unless the offset wraps with something left;
        then it is as much from the start of the array. */
    ghost function Rest(len: nat): (s: seq<byte>)
      requires Valid() && len <= size
      reads this, buf
      ensures |s| == size - len
    {
      if Wraps(len) then buf[offset + len - 0x1_0000..offset + size - 0x1_0000] else Contents()[len..]
    }

    constructor ()
      ensures Valid() && Contents() == [] && !cramped && !wrapped && buf == null && cap == 0
    {
      buf, offset, size, cap, cramped, wrapped := null, 0, 0, 0, false, false;
    }

    /** `SSLBuffer::span`. */
    method Data() returns (bytes: seq<byte>)
      requires Valid()
      ensures bytes == Contents()
    {
      bytes := if buf == null then [] else buf[offset..offset + size];
    }

    /** `SSLBuffer::Clear`. */
    method Clear()
      requires Valid()
      modifies this
      ensures Valid() && Contents() == [] && cap == 0 && buf == null
      ensures cramped == old(cramped) && wrapped == old(wrapped)
    {
      buf, offset, size, cap := null, 0, 0, 0;
    }

    /** `SSLBuffer::EnsureCap`, with what memory answers: whether there is any, where it is, and what is in it. */
    method EnsureCap(headerLen: nat, newCap: nat, gotMemory: bool, address: nat, garbage: byte) returns (ok: bool)
      requires Valid()
      modifies this
      ensures Valid() && Contents() == old(Contents()) && wrapped == old(wrapped) && size == old(size)
      ensures ok == (newCap <= 0xffff && (old(cap) >= newCap || gotMemory))
      ensures if ok && old(cap) < newCap then
                && fresh(buf) && cap == newCap && offset == (0 - headerLen - address) % ALIGN_PAYLOAD
                && Front() == seq(offset, _ => garbage)
              else buf == old(buf) && offset == old(offset) && cap == old(cap)
      ensures cramped ==> old(cramped) || newCap + ALIGN_PAYLOAD - 1 > 0x1_0000
    {
      if newCap > 0xffff {
        return false;
      }
      if cap >= newCap {
        return true;
      }
      if !gotMemory {
        return false;
      }
      var newOffset := (0 - headerLen - address) % ALIGN_PAYLOAD;
      var newBuf := Moved(newCap, newOffset, garbage);
      buf, offset, cap := newBuf, newOffset, newCap;
      cramped := cramped || newCap + ALIGN_PAYLOAD - 1 > 0x1_0000;
      return true;
    }

    /** A larger array, with the contents from `newOffset` on. */
    method Moved(newCap: nat, newOffset: nat, garbage: byte) returns (newBuf: array<byte>)
      requires Valid() && size <= newCap && newOffset < ALIGN_PAYLOAD
      ensures fresh(newBuf) && newBuf.Length == newCap + ALIGN_PAYLOAD - 1
      ensures newBuf[newOffset..newOffset + size] == Contents() && newBuf[..newOffset] == seq(newOffset, _ => garbage)
    {
      newBuf := new byte[newCap + ALIGN_PAYLOAD - 1](_ => garbage);
      if buf != null {
        forall i | 0 <= i < size {
          newBuf[newOffset + i] := buf[offset + i];
        }
      }
    }

    /** Bytes put into `remaining()`, and then `SSLBuffer::DidWrite`. */
    method Append(bytes: seq<byte>)
      requires Valid() && |bytes| <= cap - size
      modifies this`size, buf
      ensures Valid() && Contents() == old(Contents()) + bytes
      ensures Front() == old(Front())
    {
      ghost var contents := Contents();
      if buf != null {
        var start := offset + size;
        forall i | 0 <= i < |bytes| {
          buf[start + i] := bytes[i];
        }
      }
      size := size + |bytes|;
      assert Contents() == contents + bytes;
    }

    /** That is what stands at the next offset. */
    lemma RestAt(len: nat, next: nat)
      requires Valid() && len <= size && next ==
                 if offset + len <= MAX_OFFSET then offset + len else offset + len - 0x1_0000
      ensures buf != null ==> next + size - len <= buf.Length && Rest(len) == buf[..][next..next + size - len]
      ensures !Wraps(len) ==> Rest(len) == Contents()[len..]
    {
      if buf != null && !Wraps(len) && len < size {
        RestIsSlice(buf[..], offset, size, len);
      }
    }

    lemma NextInBounds(len: nat, next: nat)
      requires Valid() && len <= size && next ==
                 if offset + len <= MAX_OFFSET then offset + len else offset + len - 0x1_0000
      ensures buf != null ==> next + (cap - len) <= buf.Length
      ensures next + (cap - len) < 0x2_0000 && (!cramped ==> next + (cap - len) <= 0x1_0000)
      ensures Wraps(len) ==> cramped
    {
    }

    /** The sum in 16 bits. */
    method AddToOffset(len: nat) returns (next: nat)
      requires Valid() && len <= size
      ensures next == if offset + len <= MAX_OFFSET then offset + len else offset + len - 0x1_0000
    {
      NextOffsetAt(offset, len);
      next := NextOffset(offset, len);
    }

    /** `SSLBuffer::Consume`. */
    method Consume(len: nat)
      requires Valid() && len <= size
      modifies this`offset, this`size, this`cap, this`wrapped
      ensures Valid() && size == old(size) - len && cap == old(cap) - len
      ensures offset == if old(offset) + len <= MAX_OFFSET then old(offset) + len else old(offset) + len - 0x1_0000
      ensures wrapped == (old(wrapped) || old(Wraps(len)))
      ensures Contents() == old(Rest(len)) && (!old(Wraps(len)) ==> Contents() == old(Contents())[len..])
    {
      var next := AddToOffset(len);
      RestAt(len, next);
      Shift(len, next);
    }

    /** The window from `next` on, `len` bytes shorter. */
    method Shift(len: nat, next: nat)
      requires Valid() && len <= size
      requires next == if offset + len <= MAX_OFFSET then offset + len else offset + len - 0x1_0000
      modifies this`offset, this`size, this`cap, this`wrapped
      ensures Valid() && size == old(size) - len && cap == old(cap) - len && offset == next
      ensures wrapped == (old(wrapped) || old(Wraps(len)))
      ensures buf != null ==> buf[..] == old(buf[..])
    {
      NextInBounds(len, next);
      wrapped := wrapped || Wraps(len);
      offset, size, cap := next, size - len, cap - len;
    }

    /** `SSLBuffer::DiscardConsumed`. */
    method DiscardConsumed()
      requires Valid()
      modifies this
      ensures Valid() && Contents() == old(Contents()) && cramped == old(cramped) && wrapped == old(wrapped)
    {
      if size == 0 {
        Clear();
      }
    }
  }
}
