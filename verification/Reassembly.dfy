/** Handshake fragment headers and the reassembly of one message from overlapping fragments
    (sections 4.2.2 and 4.2.3 of RFC 6347). */
module Reassembly {
  import opened Bytes
  import opened Wrappers

  const HEADER_LENGTH := 12

  /** `SSL_MAX_HANDSHAKE_FLIGHT`. */
  const MAX_FLIGHT := 7

  const RT_CHANGE_CIPHER_SPEC := 20
  const RT_HANDSHAKE := 22
  const RT_APPLICATION_DATA := 23

  /** `hm_header_st`: type, 24-bit message length, 16-bit sequence number, 24-bit fragment offset and
      24-bit fragment length. */
  datatype Header = Header(msgType: byte, msgLen: nat, seqNum: nat, fragOff: nat, fragLen: nat) {
    predicate Fits() {
      msgLen < 0x100_0000 && seqNum < 0x1_0000 && fragOff < 0x100_0000 && fragLen < 0x100_0000
    }

    function Encode(): (s: seq<byte>)
      requires Fits()
      ensures |s| == HEADER_LENGTH
    {
      [msgType] + U24(msgLen) + U16(seqNum) + U24(fragOff) + U24(fragLen)
    }
  }

  datatype Fragment = Fragment(header: Header, body: seq<byte>, rest: seq<byte>)

  /** `dtls1_parse_fragment`: take one header and its body off the front. */
  function ParseFragment(s: seq<byte>): (r: Option<Fragment>)
    ensures r.Some? ==> r.value.header.Fits() && |r.value.body| == r.value.header.fragLen
    ensures r.Some? ==> |r.value.rest| < |s|
  {
    if |s| < HEADER_LENGTH then None
    else
      var header := Header(s[0], ReadU24(s[1..]), ReadU16(s[4..]), ReadU24(s[6..]), ReadU24(s[9..]));
      var tail := s[HEADER_LENGTH..];
      if |tail| < header.fragLen then None
      else Some(Fragment(header, tail[..header.fragLen], tail[header.fragLen..]))
  }

  lemma FieldsEncoded(header: Header, s: seq<byte>)
    requires header.Fits() && |s| >= HEADER_LENGTH && s[..HEADER_LENGTH] == header.Encode()
    ensures header == Header(s[0], ReadU24(s[1..]), ReadU16(s[4..]), ReadU24(s[6..]), ReadU24(s[9..]))
  {
    var e := header.Encode();
    assert forall i :: 0 <= i < HEADER_LENGTH ==> s[i] == e[i];
  }

  /** Parsing takes off exactly what was put in front, whatever follows. */
  lemma ParseEncoded(header: Header, body: seq<byte>, rest: seq<byte>)
    requires header.Fits() && header.fragLen == |body|
    ensures ParseFragment(header.Encode() + body + rest) == Some(Fragment(header, body, rest))
  {
    var s := header.Encode() + body + rest;
    assert s[HEADER_LENGTH..] == body + rest;
    assert s[..HEADER_LENGTH] == header.Encode();
    FieldsEncoded(header, s);
    assert (body + rest)[..|body|] == body && (body + rest)[|body|..] == rest;
  }

  /** The fields of a fragment's header lie where section 4.2.2 of RFC 6347 puts them: one byte of type, three of
      message length, two of number, three of offset and three of fragment length, each with the highest byte
      first; and there must be as many bytes behind it as the last one says. */
  lemma FragmentLayout(s: seq<byte>)
    requires |s| >= 12
    ensures var len := BigEndian(s[9..12]);
            && (ParseFragment(s).Some? <==> |s| >= 12 + len)
            && (|s| >= 12 + len ==>
                  ParseFragment(s).value == Fragment(
                    Header(s[0], BigEndian(s[1..4]), BigEndian(s[4..6]), BigEndian(s[6..9]), len),
                    s[12..12 + len], s[12 + len..]))
  {
    var len := BigEndian(s[9..12]);
    ThreeBytes(s[1..]);
    TwoBytes(s[4..]);
    ThreeBytes(s[6..]);
    ThreeBytes(s[9..]);
    assert s[1..][..3] == s[1..4] && s[4..][..2] == s[4..6] && s[6..][..3] == s[6..9] && s[9..][..3] == s[9..12];
    if |s| >= 12 + len {
      assert s[12..][..len] == s[12..12 + len] && s[12..][len..] == s[12 + len..];
    }
  }

  /** Which bytes have arrived, once those from `start`, inclusive, to `end`, exclusive, have too. */
  function Arrive(received: seq<bool>, start: nat, end: nat): (r: seq<bool>)
    ensures |r| == |received|
    ensures forall i :: 0 <= i < |r| ==> (r[i] <==> received[i] || start <= i < end)
  {
    seq(|received|, i requires 0 <= i < |received| => received[i] || start <= i < end)
  }

  /** A partly reassembled message with mask and pointers abstracted away: `data` is the buffer with
      its 12-byte header, `received[i]` says whether body byte `i` has arrived. */
  datatype Partial = Partial(msgType: byte, seqNum: nat, msgLen: nat, data: seq<byte>, received: seq<bool>) {
    predicate WellFormed() {
      && msgLen < 0x100_0000 && seqNum < 0x1_0000
      && |data| == HEADER_LENGTH + msgLen && |received| == msgLen
      && data[..HEADER_LENGTH] == Header(msgType, msgLen, seqNum, 0, msgLen).Encode()
    }

    predicate Complete() {
      forall i :: 0 <= i < |received| ==> received[i]
    }

    /** What one fragment does: its bytes are copied in and counted as arrived, unless the message was
        already complete. */
    function Accept(off: nat, body: seq<byte>): (p: Partial)
      requires WellFormed() && off + |body| <= msgLen
      ensures p.WellFormed()
    {
      if Complete() then this
      else
        var copied := Overwrite(data, HEADER_LENGTH + off, body);
        assert copied[..HEADER_LENGTH] == data[..HEADER_LENGTH];
        Partial(msgType, seqNum, msgLen, copied, Arrive(received, off, off + |body|))
    }
  }

  /** A message none of whose bytes have arrived. */
  function Blank(header: Header): (p: Partial)
    requires header.Fits()
    ensures p.WellFormed()
  {
    Partial(header.msgType, header.seqNum, header.msgLen,
            Header(header.msgType, header.msgLen, header.seqNum, 0, header.msgLen).Encode()
            + seq(header.msgLen, i => 0),
            seq(header.msgLen, i => false))
  }

  // ----- the mask -----

  predicate MaskBit(b: bv8, k: nat)
    requires k < 8
  {
    (b >> k) & 1 == 1
  }

  /** Whether the mask says that body byte `i` has arrived. */
  predicate Marked(mask: seq<bv8>, i: nat)
    requires i < 8 * |mask|
  {
    MaskBit(mask[i / 8], i % 8)
  }

  /** `bit_range`: bits `start`, inclusive, to `end`, exclusive. */
  function BitRange(start: nat, end: nat): (r: bv8)
    requires start <= 8 && end <= 8
  {
    ((!(((1 as bv32) << start) - 1) & (((1 as bv32) << end) - 1)) & 0xff) as bv8
  }

  lemma BitRangeBits(start: nat, end: nat, k: nat)
    requires start <= 8 && end <= 8 && k < 8
    ensures MaskBit(BitRange(start, end), k) <==> start <= k < end
  {
    assert start == 0 || start == 1 || start == 2 || start == 3 || start == 4 || start == 5 || start == 6
           || start == 7 || start == 8;
    assert end == 0 || end == 1 || end == 2 || end == 3 || end == 4 || end == 5 || end == 6 || end == 7 || end == 8;
    assert k == 0 || k == 1 || k == 2 || k == 3 || k == 4 || k == 5 || k == 6 || k == 7;
  }

  lemma OrBits(a: bv8, b: bv8, k: nat)
    requires k < 8
    ensures MaskBit(a | b, k) <==> MaskBit(a, k) || MaskBit(b, k)
  {
    assert k == 0 || k == 1 || k == 2 || k == 3 || k == 4 || k == 5 || k == 6 || k == 7;
  }

  /** A byte is determined by its eight bits. */
  lemma SameBits(a: bv8, b: bv8)
    requires forall k: nat :: k < 8 ==> (MaskBit(a, k) <==> MaskBit(b, k))
    ensures a == b
  {
    assert MaskBit(a, 0) <==> MaskBit(b, 0);
    assert MaskBit(a, 1) <==> MaskBit(b, 1);
    assert MaskBit(a, 2) <==> MaskBit(b, 2);
    assert MaskBit(a, 3) <==> MaskBit(b, 3);
    assert MaskBit(a, 4) <==> MaskBit(b, 4);
    assert MaskBit(a, 5) <==> MaskBit(b, 5);
    assert MaskBit(a, 6) <==> MaskBit(b, 6);
    assert MaskBit(a, 7) <==> MaskBit(b, 7);
    assert SameBv(a, b);
  }

  predicate SameBv(a: bv8, b: bv8) {
    && (a >> 0) & 1 == (b >> 0) & 1 && (a >> 1) & 1 == (b >> 1) & 1
    && (a >> 2) & 1 == (b >> 2) & 1 && (a >> 3) & 1 == (b >> 3) & 1
    && (a >> 4) & 1 == (b >> 4) & 1 && (a >> 5) & 1 == (b >> 5) & 1
    && (a >> 6) & 1 == (b >> 6) & 1 && (a >> 7) & 1 == (b >> 7) & 1
  }

  /** Whether bit `i` is set anywhere in a mask of which only `8 * |mask|` bits exist. */
  predicate InMask(mask: seq<bv8>, i: nat) {
    i < 8 * |mask| && Marked(mask, i)
  }

  /** The mask holds a bit for exactly the bytes that have arrived, and none at or past the length of
      the message. */
  ghost predicate Represents(mask: seq<bv8>, received: seq<bool>) {
    && |mask| == (|received| + 7) / 8
    && forall i: nat :: InMask(mask, i) <==> i < |received| && received[i]
  }

  /** The completeness test: every whole byte of the mask is full, and the last one is full as far as
      the message goes. */
  predicate MaskFull(mask: seq<bv8>, msgLen: nat)
    requires |mask| == (msgLen + 7) / 8
  {
    && (forall i :: 0 <= i < msgLen / 8 ==> mask[i] == 0xff)
    && (msgLen % 8 != 0 ==> mask[msgLen / 8] == BitRange(0, msgLen % 8))
  }

  /** The test on whole bytes of the mask finds out exactly whether every byte of the message is there. */
  lemma FullMeansComplete(mask: seq<bv8>, received: seq<bool>)
    requires Represents(mask, received)
    ensures MaskFull(mask, |received|) <==> forall i :: 0 <= i < |received| ==> received[i]
  {
    var n := |received|;
    if MaskFull(mask, n) {
      forall i | 0 <= i < n
        ensures received[i]
      {
        if i / 8 < n / 8 {
          BitRangeBits(0, 8, i % 8);
          assert BitRange(0, 8) == 0xff;
        } else {
          BitRangeBits(0, n % 8, i % 8);
        }
        assert InMask(mask, i);
      }
    }
    if forall i :: 0 <= i < n ==> received[i] {
      forall j | 0 <= j < |mask|
        ensures mask[j] == BitRange(0, if j < n / 8 then 8 else n % 8)
      {
        FullByte(mask, received, j);
      }
      assert BitRange(0, 8) == 0xff;
    }
  }

  lemma FullByte(mask: seq<bv8>, received: seq<bool>, j: nat)
    requires Represents(mask, received) && j < |mask|
    requires forall i :: 0 <= i < |received| ==> received[i]
    ensures mask[j] == BitRange(0, if j < |received| / 8 then 8 else |received| % 8)
  {
    var top := if j < |received| / 8 then 8 else |received| % 8;
    forall k: nat | k < 8
      ensures MaskBit(mask[j], k) <==> MaskBit(BitRange(0, top), k)
    {
      BitRangeBits(0, top, k);
      assert (8 * j + k) / 8 == j && (8 * j + k) % 8 == k;
      assert InMask(mask, 8 * j + k) <==> 8 * j + k < |received|;
    }
    SameBits(mask[j], BitRange(0, top));
  }

  /** Or-ing `bits` into byte `j` of the mask. */
  lemma MarkByte(mask: seq<bv8>, j: nat, bits: bv8, i: nat)
    requires j < |mask|
    ensures InMask(mask[j := mask[j] | bits], i) <==> InMask(mask, i) || (i / 8 == j && MaskBit(bits, i % 8))
  {
    if i / 8 == j {
      OrBits(mask[j], bits, i % 8);
    }
  }

  /** The mask after marking `start` to `end`: the two ends by `BitRange`, whole bytes in between. */
  function MarkMask(mask: seq<bv8>, start: nat, end: nat): (r: seq<bv8>)
    requires start < end <= 8 * |mask|
    ensures |r| == |mask|
  {
    if start / 8 == end / 8 then mask[start / 8 := mask[start / 8] | BitRange(start % 8, end % 8)]
    else
      var first := mask[start / 8 := mask[start / 8] | BitRange(start % 8, 8)];
      var whole := seq(|mask|, i requires 0 <= i < |mask| => if start / 8 < i < end / 8 then 0xff else first[i]);
      if end % 8 != 0 then whole[end / 8 := whole[end / 8] | BitRange(0, end % 8)] else whole
  }

  /** A range of bits that goes over byte boundaries: the end of one byte, whole bytes, the start of another. */
  lemma RangeBytes(start: nat, end: nat, i: nat)
    requires start / 8 < end / 8
    ensures start <= i < end <==>
            || (i / 8 == start / 8 && start % 8 <= i % 8)
            || start / 8 < i / 8 < end / 8
            || (i / 8 == end / 8 && i % 8 < end % 8)
  {
  }

  /** Marking sets exactly the bits of the range. */
  lemma MarkMaskBit(mask: seq<bv8>, start: nat, end: nat, i: nat)
    requires start < end <= 8 * |mask|
    ensures InMask(MarkMask(mask, start, end), i) <==> InMask(mask, i) || start <= i < end
  {
    if start / 8 == end / 8 {
      MarkByte(mask, start / 8, BitRange(start % 8, end % 8), i);
      BitRangeBits(start % 8, end % 8, i % 8);
    } else {
      var first := mask[start / 8 := mask[start / 8] | BitRange(start % 8, 8)];
      var whole := seq(|mask|, i requires 0 <= i < |mask| => if start / 8 < i < end / 8 then 0xff else first[i]);
      MarkEnds(mask, first, whole, start / 8, start % 8, end / 8, end % 8, i);
      RangeBytes(start, end, i);
    }
  }

  lemma MarkEnds(mask: seq<bv8>, first: seq<bv8>, whole: seq<bv8>, from: nat, low: nat, to: nat, high: nat, i: nat)
    requires from < to <= |mask| == |whole| && low < 8 && high < 8 && (high != 0 ==> to < |mask|)
    requires first == mask[from := mask[from] | BitRange(low, 8)]
    requires forall j :: 0 <= j < |whole| ==> whole[j] == if from < j < to then 0xff else first[j]
    ensures InMask(if high != 0 then whole[to := whole[to] | BitRange(0, high)] else whole, i) <==>
            || InMask(mask, i) || (i / 8 == from && low <= i % 8) || from < i / 8 < to || (i / 8 == to && i % 8 < high)
  {
    MarkByte(mask, from, BitRange(low, 8), i);
    BitRangeBits(low, 8, i % 8);
    WholeBytes(first, whole, from, to, i);
    if high != 0 {
      MarkByte(whole, to, BitRange(0, high), i);
      BitRangeBits(0, high, i % 8);
    }
  }

  /** Setting all the bits of the bytes in between. */
  lemma WholeBytes(first: seq<bv8>, whole: seq<bv8>, from: nat, to: nat, i: nat)
    requires from < to <= |first| == |whole|
    requires forall j :: 0 <= j < |whole| ==> whole[j] == if from < j < to then 0xff else first[j]
    ensures InMask(whole, i) <==> InMask(first, i) || from < i / 8 < to
  {
    BitRangeBits(0, 8, i % 8);
    assert BitRange(0, 8) == 0xff;
  }

  lemma MarkRepresents(mask: seq<bv8>, received: seq<bool>, start: nat, end: nat)
    requires Represents(mask, received) && start < end <= |received|
    ensures Represents(MarkMask(mask, start, end), Arrive(received, start, end))
  {
    forall i: nat
      ensures InMask(MarkMask(mask, start, end), i) <==> i < |received| && Arrive(received, start, end)[i]
    {
      MarkMaskBit(mask, start, end, i);
    }
  }

  lemma EmptyRepresents(mask: seq<bv8>, msgLen: nat)
    requires |mask| == (msgLen + 7) / 8 && forall i :: 0 <= i < |mask| ==> mask[i] == 0
    ensures Represents(mask, seq(msgLen, i => false))
  {
    forall i: nat | i < 8 * |mask|
      ensures !InMask(mask, i)
    {
      BitRangeBits(0, 0, i % 8);
    }
  }

  /** The marking loop of `dtls1_hm_fragment_mark`. */
  method SetRange(mask: array<bv8>, start: nat, end: nat)
    requires start < end <= 8 * mask.Length
    modifies mask
    ensures mask[..] == MarkMask(old(mask[..]), start, end)
  {
    if start / 8 == end / 8 {
      mask[start / 8] := mask[start / 8] | BitRange(start % 8, end % 8);
    } else {
      mask[start / 8] := mask[start / 8] | BitRange(start % 8, 8);
      ghost var first := mask[..];
      for i := start / 8 + 1 to end / 8
        invariant |first| == mask.Length
        invariant forall j :: 0 <= j < mask.Length ==> mask[j] == if start / 8 < j < i then 0xff else first[j]
      {
        mask[i] := 0xff;
      }
      if end % 8 != 0 {
        mask[end / 8] := mask[end / 8] | BitRange(0, end % 8);
      }
    }
  }

  /** The completeness loop of `dtls1_hm_fragment_mark`. */
  method IsFull(mask: array<bv8>, msgLen: nat) returns (full: bool)
    requires mask.Length == (msgLen + 7) / 8
    ensures full == MaskFull(mask[..], msgLen)
  {
    for i := 0 to msgLen / 8
      invariant forall j :: 0 <= j < i ==> mask[j] == 0xff
    {
      if mask[i] != 0xff {
        return false;
      }
    }
    if msgLen % 8 != 0 && mask[msgLen / 8] != BitRange(0, msgLen % 8) {
      return false;
    }
    return true;
  }

  // ----- the reassembly buffer -----

  /** `hm_fragment`: the buffer of an incoming message, header already filled in, and the mask of the
      body bytes that have arrived, which is dropped when the message is complete. */
  class HmFragment {
    const msgType: byte
    const seqNum: nat
    const msgLen: nat
    const data: array<byte>
    var reassembly: array?<bv8>
    ghost const Repr: set<object>

    ghost predicate Valid()
      reads Repr
    {
      && this in Repr && data in Repr
      && (reassembly != null ==>
            && reassembly in Repr && (reassembly as object) != data && reassembly.Length == (msgLen + 7) / 8
            && msgLen > 0 && !MaskFull(reassembly[..], msgLen))
      && msgLen < 0x100_0000 && seqNum < 0x1_0000
      && data.Length == HEADER_LENGTH + msgLen
      && data[..HEADER_LENGTH] == Header(msgType, msgLen, seqNum, 0, msgLen).Encode()
      && forall i: nat :: reassembly != null && InMask(reassembly[..], i) ==> i < msgLen
    }

    /** The abstract value. */
    ghost function View(): (p: Partial)
      requires Valid()
      reads Repr
      ensures p.WellFormed()
    {
      Partial(msgType, seqNum, msgLen, data[..],
              seq(msgLen, i requires 0 <= i < msgLen reads this, reassembly =>
                reassembly == null || InMask(reassembly[..], i)))
    }

    lemma ViewComplete()
      requires Valid()
      ensures View().Complete() <==> reassembly == null
    {
      if reassembly != null {
        FullMeansComplete(reassembly[..], View().received);
      }
    }

    /** `dtls1_hm_fragment_new`; memory is never short, and the buffer
        starts out zero. */
    constructor (header: Header)
      requires header.Fits()
      ensures Valid() && fresh(Repr) && View() == Blank(header)
    {
      msgType, seqNum, msgLen := header.msgType, header.seqNum, header.msgLen;
      var h := Header(header.msgType, header.msgLen, header.seqNum, 0, header.msgLen).Encode();
      var buffer := new byte[HEADER_LENGTH + header.msgLen](i => if 0 <= i < HEADER_LENGTH then h[i] else 0);
      data := buffer;
      if header.msgLen > 0 {
        var mask := new bv8[(header.msgLen + 7) / 8](i => 0);
        EmptyRepresents(mask[..], header.msgLen);
        FullMeansComplete(mask[..], seq(header.msgLen, i => false));
        assert !seq(header.msgLen, i => false)[0];
        reassembly, Repr := mask, {this, buffer, mask};
      } else {
        reassembly, Repr := null, {this, buffer};
      }
      new;
      assert data[..HEADER_LENGTH] == h;
      assert data[..] == h + seq(header.msgLen, i => 0);
    }

    /** `dtls1_hm_fragment_mark`. */
    method Mark(start: nat, end: nat)
      requires Valid() && reassembly != null && start <= end <= msgLen
      modifies this`reassembly, reassembly
      ensures Valid()
      ensures View() == old(View()).(received := Arrive(old(View()).received, start, end))
    {
      ghost var received := Arrive(View().received, start, end);
      if start == end {
        assert received == View().received;
        return;
      }
      MarkRepresents(reassembly[..], View().received, start, end);
      SetRange(reassembly, start, end);
      FullMeansComplete(reassembly[..], received);
      var full := IsFull(reassembly, msgLen);
      if full {
        reassembly := null;
      }
      assert View().received == received;
    }

    /** The part of `dtls1_open_handshake` that puts one fragment into the message. */
    method Accept(off: nat, body: seq<byte>)
      requires Valid() && off + |body| <= msgLen
      modifies Repr
      ensures Valid() && View() == old(View()).Accept(off, body)
    {
      ViewComplete();
      if reassembly == null {
        return;
      }
      var at := HEADER_LENGTH + off;
      ghost var before := data[..];
      forall i | 0 <= i < |body| {
        data[at + i] := body[i];
      }
      assert data[..] == Overwrite(before, at, body);
      assert data[..HEADER_LENGTH] == before[..HEADER_LENGTH];
      assert reassembly[..] == old(reassembly[..]);
      Mark(off, off + |body|);
    }
  }
}
