/** nanopb's streams: an output stream that writes into a buffer or only counts, an input stream over a
    buffer, and the scalar encoders and decoders on them. */
module PbStreams {
  import opened Words
  import opened Bytes
  import opened Wrappers
  import opened PbWire

  lemma OverwriteTwice(buffer: seq<byte>, at: nat, a: seq<byte>, b: seq<byte>)
    requires at + |a| + |b| <= |buffer|
    ensures Overwrite(Overwrite(buffer, at, a), at + |a|, b) == Overwrite(buffer, at, a + b)
  {
  }

  /** An output stream with what lies in its buffer. */
  datatype Image = Image(buffer: seq<byte>, state: nat, bytesWritten: nat)

  /** What it means to emit `out`: it succeeds exactly if there is something to emit and room for it; then
      the bytes follow those written before. Bytes before them never change. */
  ghost predicate Emits(sizing: bool, maxSize: nat, before: Image, after: Image, ok: bool, out: Option<seq<byte>>) {
    && (ok <==> out.Some? && (sizing || before.bytesWritten + |out.value| <= maxSize))
    && (ok ==> after.bytesWritten == before.bytesWritten + |out.value|)
    && (ok && !sizing ==>
          && after.state == before.state + |out.value| <= |before.buffer|
          && after.buffer == Overwrite(before.buffer, before.state, out.value))
    && (!sizing ==>
          && before.state <= |before.buffer| == |after.buffer|
          && after.buffer[..before.state] == before.buffer[..before.state])
  }

  function Join(a: Option<seq<byte>>, b: Option<seq<byte>>): Option<seq<byte>> {
    if a.Some? && b.Some? then Some(a.value + b.value) else None
  }

  /** Nothing emitted. */
  lemma EmitsNothing(sizing: bool, maxSize: nat, s: Image)
    requires !sizing ==> s.bytesWritten <= maxSize && s.state <= |s.buffer|
    ensures Emits(sizing, maxSize, s, s, true, Some([]))
  {
  }

  /** First `a`, then, with whatever success, `b`. */
  lemma EmitsBoth(sizing: bool, maxSize: nat, before: Image, middle: Image, after: Image,
                  a: Option<seq<byte>>, ok: bool, b: Option<seq<byte>>)
    requires Emits(sizing, maxSize, before, middle, true, a)
    requires Emits(sizing, maxSize, middle, after, ok, b)
    ensures Emits(sizing, maxSize, before, after, ok, Join(a, b))
  {
    if !sizing {
      assert after.buffer[..before.state] == middle.buffer[..before.state] by {
        assert after.buffer[..middle.state][..before.state] == middle.buffer[..middle.state][..before.state];
      }
      if ok {
        OverwriteTwice(before.buffer, before.state, a.value, b.value);
      }
    }
  }

  /** The first half failed, so the whole has. */
  lemma EmitsNeither(sizing: bool, maxSize: nat, before: Image, after: Image, a: Option<seq<byte>>,
      b: Option<seq<byte>>)
    requires Emits(sizing, maxSize, before, after, false, a)
    ensures Emits(sizing, maxSize, before, after, false, Join(a, b))
  {
  }

  /** The digits of a varint, all of them with the top bit set, as the encoder first lays them down. */
  function Digits(v: nat): (s: seq<byte>)
    ensures forall i :: 0 <= i < |s| ==> s[i] >= 128
    ensures v > 0 ==> s != []
  {
    if v == 0 then [] else [v % 128 + 128] + Digits(v / 128)
  }

  /** Unsetting the top bit of the last one makes it the canonical encoding. */
  lemma {:induction false} UnsetTopBit(v: nat)
    requires v > 0
    ensures var s := Digits(v); PbWire.EncodeVarint(v) == s[..|s| - 1] + [s[|s| - 1] - 128]
  {
    if v >= 128 {
      UnsetTopBit(v / 128);
      var s, t := Digits(v), Digits(v / 128);
      assert s[..|s| - 1] == [v % 128 + 128] + t[..|t| - 1];
    }
  }

  lemma NextDigit(digits: seq<byte>, rest: nat)
    requires rest > 0
    ensures digits + Digits(rest) == digits + [rest % 128 + 128] + Digits(rest / 128)
  {
    Regroup(digits, [rest % 128 + 128], Digits(rest / 128));
  }

  lemma Regroup(a: seq<byte>, b: seq<byte>, c: seq<byte>)
    ensures a + (b + c) == a + b + c
  {
  }

  /** The loop of `pb_encode_varint`, which fills a local buffer. */
  method LayDigits(value: nat) returns (digits: seq<byte>)
    requires value > 0
    ensures digits != [] && digits[|digits| - 1] >= 128
    ensures PbWire.EncodeVarint(value) == digits[..|digits| - 1] + [digits[|digits| - 1] - 128]
  {
    digits := [];
    var rest: nat := value;
    while rest > 0
      invariant Digits(value) == digits + Digits(rest)
    {
      NextDigit(digits, rest);
      digits := digits + [rest % 128 + 128];
      rest := rest / 128;
    }
    AllDigits(digits, value);
  }

  lemma AllDigits(digits: seq<byte>, value: nat)
    requires value > 0 && Digits(value) == digits + Digits(0)
    ensures digits != [] && digits[|digits| - 1] >= 128
    ensures PbWire.EncodeVarint(value) == digits[..|digits| - 1] + [digits[|digits| - 1] - 128]
  {
    assert digits == Digits(value);
    UnsetTopBit(value);
  }

  /** `pb_ostream_t` on a buffer; `sizing` is the stream without a callback. Lengths are unbounded. */
  class OStream {
    const sizing: bool
    const buffer: array<byte>
    const maxSize: nat
    var state: nat
    var bytesWritten: nat

    ghost predicate Valid()
      reads this
    {
      !sizing ==> bytesWritten <= maxSize && state + (maxSize - bytesWritten) <= buffer.Length
    }

    /** `pb_ostream_from_buffer`, at an offset so that a substream can share its parent's buffer. */
    constructor FromBuffer(buffer: array<byte>, state: nat, maxSize: nat)
      requires state + maxSize <= buffer.Length
      ensures Valid() && !sizing && this.buffer == buffer && this.maxSize == maxSize
      ensures this.state == state && bytesWritten == 0
    {
      sizing, this.buffer, this.maxSize, this.state, bytesWritten := false, buffer, maxSize, state, 0;
    }

    /** `PB_OSTREAM_SIZING`. */
    constructor Sizing()
      ensures Valid() && sizing && bytesWritten == 0 && fresh(buffer)
    {
      sizing, buffer, maxSize, state, bytesWritten := true, new byte[0], 0, 0, 0;
    }

    ghost function Snapshot(): Image
      reads this, buffer
    {
      Image(buffer[..], state, bytesWritten)
    }

    /** A call has emitted `out`, or failed to. */
    twostate predicate Emitted(ok: bool, new out: Option<seq<byte>>)
      reads this, buffer
    {
      Valid() && Emits(sizing, maxSize, old(Snapshot()), Snapshot(), ok, out)
    }

    /** `pb_write`. */
    method Write(bytes: seq<byte>) returns (ok: bool)
      requires Valid()
      modifies this, buffer
      ensures Emitted(ok, Some(bytes))
    {
      if !sizing {
        if bytesWritten + |bytes| > maxSize {
          return false;
        }
        var start := state;
        state := start + |bytes|;
        forall i | 0 <= i < |bytes| {
          buffer[start + i] := bytes[i];
        }
      }
      bytesWritten := bytesWritten + |bytes|;
      return true;
    }

    /** `pb_encode_varint`. */
    method EncodeVarint(value: nat) returns (ok: bool)
      requires Valid()
      modifies this, buffer
      ensures Emitted(ok, Some(PbWire.EncodeVarint(value)))
    {
      if value <= 0x7f {
        ok := Write([value]);
        return;
      }
      var digits := LayDigits(value);
      ok := Write(digits[..|digits| - 1] + [digits[|digits| - 1] - 128]);
    }

    /** `pb_encode_svarint`. */
    method EncodeSvarint(value: int) returns (ok: bool)
      requires Valid() && Int64(value)
      modifies this, buffer
      ensures Emitted(ok, Some(PbWire.EncodeVarint(ZigZag(value))))
    {
      ok := EncodeVarint(ZigZag(value));
    }

    /** `pb_encode_fixed32` and `pb_encode_fixed64`. */
    method EncodeFixed(value: nat, size: nat) returns (ok: bool)
      requires Valid()
      modifies this, buffer
      ensures Emitted(ok, Some(LittleEndian(value, size)))
    {
      ok := Write(LittleEndian(value, size));
    }

    /** `pb_encode_string`: the length, then the bytes. */
    method EncodeString(bytes: seq<byte>) returns (ok: bool)
      requires Valid()
      modifies this, buffer
      ensures Emitted(ok, Some(PbWire.EncodeVarint(|bytes|) + bytes))
    {
      ghost var start := Snapshot();
      ok := EncodeVarint(|bytes|);
      ghost var middle := Snapshot();
      if !ok {
        EmitsNeither(sizing, maxSize, start, middle, Some(PbWire.EncodeVarint(|bytes|)), Some(bytes));
        return false;
      }
      ok := Write(bytes);
      EmitsBoth(sizing, maxSize, start, middle, Snapshot(), Some(PbWire.EncodeVarint(|bytes|)), ok, Some(bytes));
    }
  }

  /** `pb_istream_t` on a buffer. */
  class IStream {
    const data: seq<byte>
    var pos: nat
    var bytesLeft: nat

    ghost predicate Valid()
      reads this
    {
      pos + bytesLeft <= |data|
    }

    /** What is still to be read. */
    ghost function Rest(): seq<byte>
      requires Valid()
      reads this
    {
      data[pos..pos + bytesLeft]
    }

    /** Reading moves the position, never the end. */
    function End(): nat
      reads this
    {
      pos + bytesLeft
    }

    /** `pb_istream_from_buffer`, on a part of a buffer. */
    constructor FromBuffer(data: seq<byte>, pos: nat, size: nat)
      requires pos + size <= |data|
      ensures Valid() && this.data == data && this.pos == pos && bytesLeft == size
    {
      this.data, this.pos, bytesLeft := data, pos, size;
    }

    /** `pb_read`. */
    method Read(count: nat) returns (ok: bool, bytes: seq<byte>)
      requires Valid()
      modifies this
      ensures Valid() && ok == (count <= |old(Rest())|)
      ensures ok ==> bytes == old(Rest())[..count] && Rest() == old(Rest())[count..]
      ensures End() == old(End()) && (ok ==> bytesLeft == old(bytesLeft) - count)
      ensures !ok ==> Rest() == old(Rest())
    {
      if bytesLeft < count {
        return false, [];
      }
      bytes := data[pos..pos + count];
      pos, bytesLeft := pos + count, bytesLeft - count;
      return true, bytes;
    }

    /** `pb_readbyte`. */
    method ReadByte() returns (ok: bool, b: byte)
      requires Valid()
      modifies this
      ensures Valid() && ok == (old(Rest()) != [])
      ensures ok ==> b == old(Rest())[0] && Rest() == old(Rest())[1..]
      ensures End() == old(End())
      ensures !ok ==> Rest() == old(Rest())
    {
      if bytesLeft == 0 {
        return false, 0;
      }
      b := data[pos];
      pos, bytesLeft := pos + 1, bytesLeft - 1;
      return true, b;
    }

    /** `pb_decode_varint`. */
    method DecodeVarint() returns (ok: bool, value: nat)
      requires Valid()
      modifies this
      ensures Valid() && End() == old(End())
      ensures ok == ReadVarint(old(Rest())).Some?
      ensures ok ==> Got(value, Rest()) == ReadVarint(old(Rest())).value
    {
      var bitpos: nat, result: nat := 0, 0;
      while true
        invariant Valid() && End() == old(End())
        invariant VarintFrom(Rest(), bitpos, result) == ReadVarint(old(Rest()))
        decreases bytesLeft
      {
        if bitpos >= 64 {
          return false, 0;
        }
        ghost var before := Rest();
        var read, b := ReadByte();
        if !read {
          return false, 0;
        }
        VarintTurn(before, bitpos, result);
        result := Or(result, ShiftLeft(b % 128, bitpos, 64));
        bitpos := bitpos + 7;
        if b < 128 {
          break;
        }
      }
      return true, result;
    }

    /** `pb_decode_varint32_eof`: `eof` says that there was not even a first byte. */
    method DecodeVarint32() returns (ok: bool, value: nat, eof: bool)
      requires Valid()
      modifies this
      ensures Valid() && End() == old(End())
      ensures ok == ReadVarint32(old(Rest())).Some? && eof == (old(Rest()) == [])
      ensures ok ==> Got(value, Rest()) == ReadVarint32(old(Rest())).value
    {
      eof := bytesLeft == 0;
      var read, b := ReadByte();
      if !read {
        return false, 0, eof;
      }
      if b < 128 {
        return true, b, eof;
      }
      var bitpos: nat, result: nat := 7, b % 128;
      while true
        invariant Valid() && End() == old(End())
        invariant Varint32From(Rest(), bitpos, result) == ReadVarint32(old(Rest()))
        decreases bytesLeft
      {
        read, b := ReadByte();
        if !read {
          return false, 0, eof;
        }
        var round := Round32(b, bitpos, result, Or(result, ShiftLeft(b % 128, bitpos, 32)));
        if round.Refuse? {
          return false, 0, eof;
        }
        result := round.value;
        if round.Finish? {
          return true, result, eof;
        }
        bitpos := round.bitpos;
      }
    }

    /** `pb_make_string_substream`: the next `size` bytes as a stream of their own. The parent gives them
        up but stays where it is until the substream is closed. */
    method MakeSubstream() returns (ok: bool, sub: IStream)
      requires Valid()
      modifies this
      ensures ok == (ReadVarint32(old(Rest())).Some? &&
                     ReadVarint32(old(Rest())).value.value <= |ReadVarint32(old(Rest())).value.rest|)
      ensures fresh(sub) && sub.data == data && Valid() && sub.Valid()
      ensures !ok ==> End() == old(End())
      ensures ok ==>
                var got := ReadVarint32(old(Rest())).value;
                && sub.Rest() == got.rest[..got.value]
                && sub.bytesLeft == got.value && sub.End() + bytesLeft == old(End())
                && data[sub.End()..sub.End() + bytesLeft] == got.rest[got.value..]
    {
      var size, eof;
      ok, size, eof := DecodeVarint32();
      if !ok || bytesLeft < size {
        sub := new IStream.FromBuffer(data, pos, 0);
        return false, sub;
      }
      sub := new IStream.FromBuffer(data, pos, size);
      bytesLeft := bytesLeft - size;
    }

    /** `pb_close_string_substream`: skip what the substream has left, and go on behind it. */
    method CloseSubstream(sub: IStream)
      requires sub.data == data && sub.Valid() && this != sub
      requires sub.End() + bytesLeft <= |data|
      modifies this, sub
      ensures Valid() && bytesLeft == old(bytesLeft) && pos == old(sub.End())
    {
      var skipped, bytes := sub.Read(sub.bytesLeft);
      pos := sub.pos;
    }
  }
}
