/** The wire format of Protocol Buffers in its own terms: what varints are, whoever wrote them, and what stands
    for each kind of field. */
module PbFormat {
  import opened Words
  import opened Bytes
  import opened Wrappers
  import opened PbWire
  import opened PbSchema
  import opened PbDecodeSpec
  import opened PbRoundTrip

  // ----- varints -----

  /** The number that the low seven bits of all bytes make, the least significant first. */
  function Base128(s: seq<byte>): nat {
    if s == [] then 0 else s[0] % 128 + 128 * Base128(s[1..])
  }

  /** Every byte but the last has the top bit set. */
  predicate IsVarint(s: seq<byte>) {
    s != [] && s[|s| - 1] < 128 && forall i :: 0 <= i < |s| - 1 ==> s[i] >= 128
  }

  lemma {:induction false} EncodesBase128(v: nat)
    ensures IsVarint(EncodeVarint(v)) && Base128(EncodeVarint(v)) == v
    decreases v
  {
    var e := EncodeVarint(v);
    if v < 128 {
      assert e[1..] == [];
    } else {
      EncodesBase128(v / 128);
      assert e[1..] == EncodeVarint(v / 128);
    }
  }

  /** A byte that fits into the 64 bits is added above the ones before it. */
  lemma LowByteAdds(d: nat, bitpos: nat, result: nat)
    requires d < 128 && bitpos <= 56 && result < Pow2(bitpos)
    ensures Or(result, ShiftLeft(d, bitpos, 64)) == result + Scale(d, bitpos) < Pow2(bitpos + 7)
  {
    SplitDigit(d, bitpos);
    ZeroScale(bitpos + 7);
    Pow2Monotone(bitpos + 7, 64);
    LowSmall(Scale(d, bitpos), 64);
    OrIsAdd(result, d, bitpos);
  }

  /** Of the tenth byte, which comes at bit 63, only one bit does. */
  lemma TenthByteAdds(d: nat, bitpos: nat, result: nat)
    requires bitpos == 63 && result < Pow2(bitpos)
    ensures Or(result, ShiftLeft(d, bitpos, 64)) == (result + Scale(d, bitpos)) % TWO64
  {
    LowScale(d, bitpos, 1);
    assert Low(d, 1) == d % 2 + 2 * Low(d / 2, 0) == d % 2;
    OrIsAdd(result, d % 2, bitpos);
    PowersOfTwo();
    TopBits(d, bitpos, result);
  }

  /** What is above bit 63 is lost. */
  lemma TopBits(d: nat, bitpos: nat, result: nat)
    requires Pow2(bitpos) == TWO63 && result < TWO63
    ensures (result + Scale(d, bitpos)) % TWO64 == result + Scale(d % 2, bitpos)
  {
    ScaleTimes(d, bitpos);
    ScaleTimes(d % 2, bitpos);
    assert d * TWO63 == (d / 2) * TWO64 + (d % 2) * TWO63;
    ModUnique(result + d * TWO63, TWO64, d / 2, result + (d % 2) * TWO63);
  }

  lemma {:induction false} ScaleTimes(q: nat, n: nat)
    ensures Scale(q, n) == q * Pow2(n)
  {
    if n > 0 {
      ScaleTimes(q, n - 1);
    }
  }

  /** What a byte adds; `left` bytes may come from here on. */
  lemma ByteAdds(d: nat, bitpos: nat, left: nat, result: nat)
    requires d < 128 && bitpos + 7 * left == 70 && left > 0 && result < Pow2(bitpos)
    ensures var next := Or(result, ShiftLeft(d, bitpos, 64));
            && next == (result + Scale(d, bitpos)) % TWO64
            && (left > 1 ==> next == result + Scale(d, bitpos) < Pow2(bitpos + 7))
  {
    if left > 1 {
      LowByteAdds(d, bitpos, result);
      BelowTwo64(result + Scale(d, bitpos), bitpos + 7);
    } else {
      TenthByteAdds(d, bitpos, result);
    }
  }

  lemma BelowTwo64(x: nat, n: nat)
    requires x < Pow2(n) && n <= 64
    ensures x % TWO64 == x
  {
    PowersOfTwo();
    Pow2Monotone(n, 64);
  }

  /** What the loop makes of a varint from some byte on. */
  function ReadAs(s: seq<byte>, tail: seq<byte>, bitpos: nat, left: nat, result: nat): Option<Got<nat>> {
    if |s| <= left then Some(Got((result + Scale(Base128(s), bitpos)) % TWO64, tail)) else None
  }

  lemma {:induction false} ReadsFrom(s: seq<byte>, tail: seq<byte>, bitpos: nat, left: nat, result: nat)
    requires IsVarint(s) && bitpos + 7 * left == 70 && left > 0 && result < Pow2(bitpos)
    ensures VarintFrom(s + tail, bitpos, result) == ReadAs(s, tail, bitpos, left, result)
    decreases left
  {
    var next := Or(result, ShiftLeft(s[0] % 128, bitpos, 64));
    FirstByteRead(s, tail, bitpos, result, next);
    ByteAdds(s[0] % 128, bitpos, left, result);
    DigitsScale(s, bitpos);
    if s[0] < 128 {
      LastByte(s, tail);
    } else if left > 1 {
      OneByteRead(s, tail, bitpos, left, result, next);
      ReadsFrom(s[1..], tail, bitpos + 7, left - 1, next);
    } else {
      assert |s| > left;
    }
  }

  lemma OneByteRead(s: seq<byte>, tail: seq<byte>, bitpos: nat, left: nat, result: nat, next: nat)
    requires s != [] && left > 1 && next == result + Scale(s[0] % 128, bitpos)
    requires Scale(Base128(s), bitpos) == Scale(s[0] % 128, bitpos) + Scale(Base128(s[1..]), bitpos + 7)
    ensures ReadAs(s, tail, bitpos, left, result) == ReadAs(s[1..], tail, bitpos + 7, left - 1, next)
  {
    assert result + Scale(Base128(s), bitpos) == next + Scale(Base128(s[1..]), bitpos + 7);
  }

  lemma DigitsScale(s: seq<byte>, bitpos: nat)
    requires s != []
    ensures Scale(Base128(s), bitpos) == Scale(s[0] % 128, bitpos) + Scale(Base128(s[1..]), bitpos + 7)
  {
    var rest := Base128(s[1..]);
    ScaleByte(rest);
    ScaleSum(s[0] % 128, 128 * rest, bitpos);
    ScaleAdd(rest, 7, bitpos);
  }

  lemma FirstByteRead(s: seq<byte>, tail: seq<byte>, bitpos: nat, result: nat, next: nat)
    requires IsVarint(s) && bitpos < 64 && next == Or(result, ShiftLeft(s[0] % 128, bitpos, 64))
    ensures VarintFrom(s + tail, bitpos, result) ==
            if s[0] < 128 then Some(Got(next, s[1..] + tail)) else VarintFrom(s[1..] + tail, bitpos + 7, next)
    ensures s[0] >= 128 ==> IsVarint(s[1..])
    ensures bitpos >= 57 ==> VarintFrom(s[1..] + tail, bitpos + 7, next) == None
  {
    assert (s + tail)[0] == s[0] && (s + tail)[1..] == s[1..] + tail;
    VarintTurn(s + tail, bitpos, result);
  }

  lemma LastByte(s: seq<byte>, tail: seq<byte>)
    requires IsVarint(s) && s[0] < 128
    ensures |s| == 1 && s[1..] + tail == tail && Base128(s) == s[0]
  {
    assert |s| == 1;
    assert s[1..] == [];
  }

  /** Every varint of at most ten bytes, canonical or not, is read as the low 64 bits of its number, and takes
      exactly its bytes; a longer one is refused. */
  lemma ReadsEveryVarint(s: seq<byte>, tail: seq<byte>)
    requires IsVarint(s)
    ensures ReadVarint(s + tail) == if |s| <= 10 then Some(Got(Base128(s) % TWO64, tail)) else None
  {
    ReadsFrom(s, tail, 0, 10, 0);
  }

  /** Anything else is refused, too: input that ends before its varint does. */
  lemma {:induction false} RefusesUnfinished(s: seq<byte>, bitpos: nat, result: nat)
    requires forall i :: 0 <= i < |s| ==> s[i] >= 128
    ensures VarintFrom(s, bitpos, result) == None
    decreases |s|
  {
    if s != [] && bitpos < 64 {
      RefusesUnfinished(s[1..], bitpos + 7, Or(result, ShiftLeft(s[0] % 128, bitpos, 64)));
    }
  }

  /** So that is all there is to reading a varint. */
  lemma ReadsExactlyVarints(s: seq<byte>)
    ensures ReadVarint(s).Some? <==> exists n :: 0 < n <= 10 && n <= |s| && IsVarint(s[..n])
  {
    var n := FirstBelow(s);
    forall k | 0 < k <= |s|
      ensures IsVarint(s[..k]) ==> k == n + 1
    {
      assert s[..k][k - 1] == s[k - 1];
      if n + 1 < k {
        assert s[..k][n] == s[n];
      }
    }
    if n < |s| {
      assert IsVarint(s[..n + 1]) && s[..n + 1] + s[n + 1..] == s;
      ReadsEveryVarint(s[..n + 1], s[n + 1..]);
    } else {
      RefusesUnfinished(s, 0, 0);
    }
  }

  /** The first byte whose top bit is not set, or the end. */
  lemma {:induction false} FirstBelow(s: seq<byte>) returns (n: nat)
    ensures n <= |s| && (n < |s| ==> s[n] < 128) && forall i :: 0 <= i < n ==> s[i] >= 128
  {
    n := 0;
    if s != [] && s[0] >= 128 {
      n := FirstBelow(s[1..]);
      n := n + 1;
    }
  }

  // ----- what stands for a value -----

  predicate LengthDelimited(s: seq<byte>, payload: seq<byte>) {
    exists n :: 0 <= n <= |s| && IsVarint(s[..n]) && Base128(s[..n]) == |payload| && s[n..] == payload
  }

  /** Wire type 0 is a varint, 1 are eight bytes, 2 a length and as many bytes, and 5 are four bytes. Negative
      numbers are what they are modulo two to the 64, or the odd numbers where the sign is in the last bit. */
  predicate OnWire(f: Field, v: Val, wireType: nat, s: seq<byte>) {
    match (f.ltype, v)
    case (Varint, Num(i)) => wireType == 0 && IsVarint(s) && Base128(s) == if i < 0 then i + TWO64 else i
    case (UVarint, Num(i)) => wireType == 0 && IsVarint(s) && Base128(s) == i
    case (SVarint, Num(i)) => wireType == 0 && IsVarint(s) && Base128(s) == if i < 0 then -2 * i - 1 else 2 * i
    case (Fixed32, Num(i)) => wireType == 5 && |s| == 4 && FromLittleEndian(s) == i
    case (Fixed64, Num(i)) => wireType == 1 && |s| == 8 && FromLittleEndian(s) == i
    case (SubMsg(sub), Msg(slots)) =>
      wireType == 2 && EncMsg(sub, slots).Some? && LengthDelimited(s, EncMsg(sub, slots).value)
    case (_, Blob(b)) => wireType == 2 && LengthDelimited(s, b)
    case _ => false
  }

  /** A tag is a varint of the field number and, in its last three bits, the wire type. */
  predicate TagOnWire(f: Field, wireType: nat, s: seq<byte>) {
    IsVarint(s) && Base128(s) == 8 * f.tag + wireType
  }

  lemma PrefixedIsDelimited(payload: seq<byte>)
    ensures LengthDelimited(Prefixed(payload), payload)
  {
    var n := |EncodeVarint(|payload|)|;
    EncodesBase128(|payload|);
    assert Prefixed(payload)[..n] == EncodeVarint(|payload|) && Prefixed(payload)[n..] == payload;
  }

  /** What is written for a field's value, and the tag in front of it, are of the format. */
  lemma ValuesOnWire(f: Field, v: Val)
    requires EncVal(f, v).Some?
    ensures OnWire(f, v, f.WireType(), EncVal(f, v).value)
    ensures TagOnWire(f, f.WireType(), EncTag(f.WireType(), f.tag))
  {
    EncodesBase128(8 * f.tag + f.WireType());
    if v.Num? {
      NumbersOnWire(f, v);
    } else if v.Blob? {
      PrefixedIsDelimited(v.b);
    } else {
      PrefixedIsDelimited(EncMsg(f.ltype.desc, v.slots).value);
    }
  }

  lemma NumbersOnWire(f: Field, v: Val)
    requires EncVal(f, v).Some? && v.Num?
    ensures OnWire(f, v, f.WireType(), EncVal(f, v).value)
  {
    match f.ltype
    case Varint => EncodesBase128(ToUnsigned64(v.i));
    case UVarint => EncodesBase128(v.i);
    case SVarint =>
      EncodesBase128(ZigZag(v.i));
      ZigZagRoundTrip(v.i);
    case Fixed32 =>
      PowersOfTwo();
      FixedRoundTrip(v.i, 4);
    case Fixed64 =>
      PowersOfTwo();
      FixedRoundTrip(v.i, 8);
  }

  // ----- what is read -----

  /** The beginning of `b` up to its first zero. */
  predicate IsStringOf(s: seq<byte>, b: seq<byte>) {
    s <= b && 0 !in s && (|s| < |b| ==> b[|s|] == 0)
  }

  lemma {:induction false} StringOf(b: seq<byte>)
    ensures IsStringOf(UpToNul(b), b)
  {
    if b != [] && b[0] != 0 {
      StringOf(b[1..]);
      assert [b[0]] + b[1..] == b;
    }
  }

  /** Bytes must fit with their size of four bytes in front, a string with a zero behind; and bytes of a fixed
      length have it, or there are none. */
  predicate BlobFits(f: Field, b: seq<byte>) {
    if f.ltype.Bytes? then |b| + 4 <= f.dataSize
    else if f.ltype.String? then |b| + 1 <= f.dataSize
    else b == [] || |b| == f.dataSize
  }

  /** A string is what comes before its first zero; and no bytes stand for as many zeros as there should be. */
  predicate IsBlobOf(f: Field, read: seq<byte>, b: seq<byte>) {
    if f.ltype.Bytes? then read == b
    else if f.ltype.String? then IsStringOf(read, b)
    else |read| == f.dataSize && (read == b || (b == [] && forall k :: 0 <= k < |read| ==> read[k] == 0))
  }

  /** What is read of bytes behind their length, and whether it is. */
  lemma BlobsRead(f: Field, b: seq<byte>, tail: seq<byte>, was: Val)
    requires (f.ltype.Bytes? || f.ltype.String? || f.ltype.FixedBytes?) && |b| < TWO32
    ensures DecVal(f, Prefixed(b) + tail, was).Some? <==> BlobFits(f, b)
    ensures BlobFits(f, b) ==>
              var v := DecVal(f, Prefixed(b) + tail, was).value;
              v.rest == tail && v.value.Blob? && IsBlobOf(f, v.value.b, b)
  {
    PrefixDecodes(b, tail);
    BlobRead(f, Prefixed(b) + tail, b, tail);
    IsDecBlob(f, Prefixed(b) + tail, was);
  }

  lemma IsDecBlob(f: Field, s: seq<byte>, was: Val)
    requires f.ltype.Bytes? || f.ltype.String? || f.ltype.FixedBytes?
    ensures DecVal(f, s, was) == DecBlob(f, s)
  {
  }

  lemma BlobRead(f: Field, s: seq<byte>, b: seq<byte>, tail: seq<byte>)
    requires f.ltype.Bytes? || f.ltype.String? || f.ltype.FixedBytes?
    requires ReadVarint32(s) == Some(Got(|b|, b + tail)) && (b + tail)[..|b|] == b && (b + tail)[|b|..] == tail
    ensures var v := DecBlob(f, s);
            && (v.Some? <==> BlobFits(f, b))
            && (v.Some? ==> v.value.rest == tail && v.value.value.Blob? && IsBlobOf(f, v.value.value.b, b))
  {
    StringOf(b);
  }
}
