/** The scalar wire formats of Protocol Buffers as nanopb writes and reads them: varints of 64 and of
    32 bits, zigzag and little-endian fixed-width values. */
module PbWire {
  import opened Words
  import opened Bytes
  import opened Wrappers

  const TWO31 := 0x8000_0000
  const TWO32 := 0x1_0000_0000
  const TWO63 := 0x8000_0000_0000_0000
  const TWO64 := 0x1_0000_0000_0000_0000

  /** A value taken off the front of the input, and what is left. */
  datatype Got<+T> = Got(value: T, rest: seq<byte>)

  lemma PowersOfTwo()
    ensures Pow2(7) == 128 && Pow2(28) == 0x1000_0000 && Pow2(31) == TWO31 && Pow2(32) == TWO32
    ensures Pow2(35) == 8 * TWO32 && Pow2(63) == TWO63 && Pow2(64) == TWO64
  {
    ScaleByte(1);
    Pow2Add(7, 7);
    ScaleByte(Pow2(7));
    Pow2Add(14, 7);
    ScaleByte(Pow2(14));
    Pow2Add(21, 7);
    ScaleByte(Pow2(21));
    Pow2Add(28, 7);
    ScaleByte(Pow2(28));
    Pow2Add(35, 7);
    ScaleByte(Pow2(35));
    Pow2Add(42, 7);
    ScaleByte(Pow2(42));
    Pow2Add(49, 7);
    ScaleByte(Pow2(49));
    Pow2Add(56, 7);
    ScaleByte(Pow2(56));
    Pow2Add(56, 8);
    assert 2 * Pow2(31) == Pow2(32) && 8 * Pow2(32) == Pow2(35);
  }

  // ----- varints -----

  /** The base-128 digits of `v`, least significant first, all but the last with the top bit set. */
  function EncodeVarint(v: nat): (s: seq<byte>)
    ensures s != []
  {
    if v < 128 then [v] else [v % 128 + 128] + EncodeVarint(v / 128)
  }

  /** A value takes at most n bytes if and only if it is below 2 to the 7n. */
  lemma {:induction false} VarintLength(v: nat, n: nat)
    requires 0 < n
    ensures |EncodeVarint(v)| <= n <==> v < Pow2(7 * n)
    decreases n
  {
    Pow2Add(7 * (n - 1), 7);
    ScaleByte(Pow2(7 * (n - 1)));
    if v >= 128 && n > 1 {
      VarintLength(v / 128, n - 1);
    }
  }

  /** `pb_decode_varint`: give up at 64 bits, otherwise or the next seven bits in; bits that leave the
      64-bit word are lost. */
  function VarintFrom(s: seq<byte>, bitpos: nat, result: nat): (r: Option<Got<nat>>)
    ensures r.Some? ==> |r.value.rest| < |s| && r.value.rest == s[|s| - |r.value.rest|..]
    decreases |s|
  {
    if bitpos >= 64 || s == [] then None
    else
      var result' := Or(result, ShiftLeft(s[0] % 128, bitpos, 64));
      if s[0] < 128 then Some(Got(result', s[1..])) else VarintFrom(s[1..], bitpos + 7, result')
  }

  /** One turn of the loop. */
  lemma VarintTurn(s: seq<byte>, bitpos: nat, result: nat)
    requires s != [] && bitpos < 64
    ensures var next := Or(result, ShiftLeft(s[0] % 128, bitpos, 64));
            VarintFrom(s, bitpos, result) ==
            if s[0] < 128 then Some(Got(next, s[1..])) else VarintFrom(s[1..], bitpos + 7, next)
  {
  }

  function ReadVarint(s: seq<byte>): (r: Option<Got<nat>>)
    ensures r.Some? ==> |r.value.rest| < |s| && r.value.rest == s[|s| - |r.value.rest|..]
  {
    VarintFrom(s, 0, 0)
  }

  /** The arithmetic of one round: the next digit of `w`, shifted to bit `bitpos`, is added, and the rest
      of `w` still fits above it. */
  lemma DigitStep(w: nat, bitpos: nat, result: nat)
    requires bitpos < 64 && result < Pow2(bitpos) && Scale(w, bitpos) < Pow2(64)
    ensures var sum := Or(result, ShiftLeft(w % 128, bitpos, 64));
            && sum < Pow2(bitpos + 7)
            && sum + Scale(w / 128, bitpos + 7) == result + Scale(w, bitpos)
    ensures Scale(w / 128, bitpos + 7) < Pow2(64)
    ensures w >= 128 ==> bitpos + 7 < 64
  {
    SplitDigit(w, bitpos);
    LowSmall(Scale(w % 128, bitpos), 64);
    OrIsAdd(result, w % 128, bitpos);
    if w >= 128 && bitpos + 7 >= 64 {
      Pow2Monotone(64, bitpos + 7);
      Pow2IsScale(bitpos + 7);
      ScaleMonotone(1, w / 128, bitpos + 7);
    }
  }

  /** The lowest digit of `w` and the rest, both shifted. */
  lemma SplitDigit(w: nat, bitpos: nat)
    ensures Scale(w, bitpos) == Scale(w / 128, bitpos + 7) + Scale(w % 128, bitpos)
    ensures Scale(w % 128, bitpos) + Pow2(bitpos) <= Pow2(bitpos + 7)
  {
    var q, digit := w / 128, w % 128;
    ScaleByte(q);
    ScaleSum(128 * q, digit, bitpos);
    ScaleAdd(q, 7, bitpos);
    Pow2IsScale(bitpos);
    Pow2IsScale(bitpos + 7);
    ScaleByte(1);
    ScaleAdd(1, 7, bitpos);
    ScaleSum(digit, 1, bitpos);
    ScaleMonotone(digit + 1, 128, bitpos);
  }

  lemma FirstDigit(w: nat, tail: seq<byte>)
    ensures var s := EncodeVarint(w) + tail;
            && s[0] == (if w < 128 then w else w % 128 + 128) && s[0] % 128 == w % 128
            && s[1..] == (if w < 128 then tail else EncodeVarint(w / 128) + tail)
  {
    var e := EncodeVarint(w);
    assert (e + tail)[0] == e[0] && (e + tail)[1..] == e[1..] + tail;
    if w >= 128 {
      assert e[1..] == EncodeVarint(w / 128);
    } else {
      assert e[1..] == [] && [] + tail == tail;
    }
  }

  /** One round of the loop on a canonical encoding. */
  lemma VarintRound(w: nat, tail: seq<byte>, bitpos: nat, result: nat) returns (sum: nat)
    requires bitpos < 64
    ensures sum == Or(result, ShiftLeft(w % 128, bitpos, 64))
    ensures VarintFrom(EncodeVarint(w) + tail, bitpos, result) ==
            if w < 128 then Some(Got(sum, tail)) else VarintFrom(EncodeVarint(w / 128) + tail, bitpos + 7, sum)
  {
    sum := Or(result, ShiftLeft(w % 128, bitpos, 64));
    FirstDigit(w, tail);
  }

  lemma VarintSum(w: nat, bitpos: nat, result: nat, sum: nat)
    requires bitpos < 64 && result < Pow2(bitpos) && Scale(w, bitpos) < Pow2(64)
    requires sum == Or(result, ShiftLeft(w % 128, bitpos, 64))
    ensures sum < Pow2(bitpos + 7) && Scale(w / 128, bitpos + 7) < Pow2(64)
    ensures sum + Scale(w / 128, bitpos + 7) == result + Scale(w, bitpos)
    ensures if w >= 128 then bitpos + 7 < 64 else sum == result + Scale(w, bitpos)
  {
    DigitStep(w, bitpos, result);
    ZeroScale(bitpos + 7);
  }

  /** What the loop makes of the digits of `w` when it meets them at bit `bitpos`. */
  lemma {:induction false} VarintFromEncoded(w: nat, tail: seq<byte>, bitpos: nat, result: nat)
    requires bitpos < 64 && result < Pow2(bitpos) && Scale(w, bitpos) < Pow2(64)
    ensures VarintFrom(EncodeVarint(w) + tail, bitpos, result) == Some(Got(result + Scale(w, bitpos), tail))
    decreases w
  {
    var sum := VarintRound(w, tail, bitpos, result);
    VarintSum(w, bitpos, result, sum);
    if w >= 128 {
      VarintFromEncoded(w / 128, tail, bitpos + 7, sum);
    }
  }

  lemma {:induction false} ZeroScale(n: nat)
    ensures Scale(0, n) == 0
  {
    if n > 0 {
      ZeroScale(n - 1);
    }
  }

  /** Reading back a canonical varint gives the value and takes exactly its bytes. */
  lemma VarintRoundTrip(v: nat, tail: seq<byte>)
    requires v < TWO64
    ensures ReadVarint(EncodeVarint(v) + tail) == Some(Got(v, tail))
    ensures |EncodeVarint(v)| <= 10
  {
    PowersOfTwo();
    VarintFromEncoded(v, tail, 0, 0);
    Pow2Monotone(64, 70);
    VarintLength(v, 10);
  }

  // ----- 32-bit varints -----

  /** What one more byte does to the loop of `pb_decode_varint32_eof`. */
  datatype Round = Refuse | Finish(value: nat) | Continue(bitpos: nat, value: nat)

  /** The loop body; `ored` is the result with the byte's seven bits or-ed in at the bit position, in
      32 bits. The bit position is itself an 8-bit counter. Past bit 32 only zero digits and, for
      negative numbers, sign-extension bytes are let through; and if the loop ends with the byte at bit
      28, that byte must fit. */
  function Round32(b: byte, bitpos: nat, result: nat, ored: nat): Round {
    var signExtension := if bitpos < 63 then 0xff else 0x01;
    if bitpos >= 32 && b % 128 != 0 && (result / TWO31 == 0 || b != signExtension) then Refuse
    else
      var result' := if bitpos >= 32 then result else ored;
      var next := (bitpos + 7) % 256;
      if b >= 128 then Continue(next, result')
      else if next == 35 && b / 16 % 8 != 0 then Refuse
      else Finish(result')
  }

  function Varint32From(s: seq<byte>, bitpos: nat, result: nat): (r: Option<Got<nat>>)
    ensures r.Some? ==> |r.value.rest| < |s| && r.value.rest == s[|s| - |r.value.rest|..]
    decreases |s|
  {
    if s == [] then None
    else
      var round := Round32(s[0], bitpos, result, Or(result, ShiftLeft(s[0] % 128, bitpos, 32)));
      if round.Refuse? then None
      else if round.Finish? then Some(Got(round.value, s[1..]))
      else Varint32From(s[1..], round.bitpos, round.value)
  }

  function ReadVarint32(s: seq<byte>): (r: Option<Got<nat>>)
    ensures r.Some? ==> |r.value.rest| < |s| && r.value.rest == s[|s| - |r.value.rest|..]
  {
    if s == [] then None
    else if s[0] < 128 then Some(Got(s[0], s[1..]))
    else Varint32From(s[1..], 7, s[0] % 128)
  }

  /** The first byte of a canonical encoding. */
  function FirstByte(w: nat): byte {
    if w < 128 then w else w % 128 + 128
  }

  /** The loop on the digits of `w`. */
  function Loop32(w: nat, bitpos: nat, result: nat): Option<nat>
    decreases w
  {
    var round := Round32(FirstByte(w), bitpos, result, Or(result, ShiftLeft(w % 128, bitpos, 32)));
    if round.Refuse? then None
    else if round.Finish? || w < 128 then Some(round.value)
    else Loop32(w / 128, round.bitpos, round.value)
  }

  /** The loop on a canonical encoding takes the digits one by one, and nothing of what follows. */
  lemma {:induction false} Unroll(w: nat, tail: seq<byte>, bitpos: nat, result: nat)
    ensures var r := Loop32(w, bitpos, result);
            Varint32From(EncodeVarint(w) + tail, bitpos, result) == if r.None? then None else Some(Got(r.value, tail))
    decreases w
  {
    FirstDigit(w, tail);
    var round := Round32(FirstByte(w), bitpos, result, Or(result, ShiftLeft(w % 128, bitpos, 32)));
    if round.Continue? {
      Unroll(w / 128, tail, round.bitpos, round.value);
    }
  }

  /** Where a digit lies in the 32-bit word with all its bits. */
  predicate LowPlace(bitpos: nat) {
    bitpos == 7 || bitpos == 14 || bitpos == 21
  }

  lemma LowByte(w: nat, bitpos: nat, result: nat, ored: nat)
    requires bitpos < 32
    ensures Round32(FirstByte(w), bitpos, result, ored) ==
            if w >= 128 then Continue(bitpos + 7, ored) else if bitpos == 28 && w >= 16 then Refuse else Finish(ored)
  {
    if w < 128 {
      assert w / 16 % 8 == w / 16;
    }
  }

  /** One round of the loop below bit 32. */
  lemma Varint32Round(w: nat, bitpos: nat, result: nat, sum: nat)
    requires bitpos < 32
    requires sum == Or(result, ShiftLeft(w % 128, bitpos, 32))
    ensures Loop32(w, bitpos, result) ==
            if w >= 128 then Loop32(w / 128, bitpos + 7, sum)
            else if bitpos == 28 && w >= 16 then None
            else Some(sum)
  {
    LowByte(w, bitpos, result, sum);
  }

  /** A digit that fits the 32-bit word is added whole. */
  lemma LowDigit(d: nat, bitpos: nat, result: nat)
    requires d < 128 && bitpos <= 28 && result < Pow2(bitpos) && Scale(d, bitpos) < Pow2(32)
    ensures Or(result, ShiftLeft(d, bitpos, 32)) == result + Scale(d, bitpos) < Pow2(bitpos + 7)
  {
    LowDigitOf(d, bitpos, result, 32);
  }

  lemma LowDigitOf(d: nat, bitpos: nat, result: nat, width: nat)
    requires d < 128 && result < Pow2(bitpos) && Scale(d, bitpos) < Pow2(width)
    ensures Or(result, ShiftLeft(d, bitpos, width)) == result + Scale(d, bitpos) < Pow2(bitpos + 7)
  {
    SplitDigit(d, bitpos);
    LowSmall(Scale(d, bitpos), width);
    OrIsAdd(result, d, bitpos);
  }

  /** Below bit 28 every digit fits, and the loop goes on with the rest of the value. */
  lemma GatherRound(w: nat, bitpos: nat, result: nat) returns (sum: nat)
    requires bitpos <= 21 && result < Pow2(bitpos) && w >= 128
    ensures sum < Pow2(bitpos + 7) && sum + Scale(w / 128, bitpos + 7) == result + Scale(w, bitpos)
    ensures Loop32(w, bitpos, result) == Loop32(w / 128, bitpos + 7, sum)
  {
    sum := result + Scale(w % 128, bitpos);
    SplitDigit(w, bitpos);
    Pow2Monotone(bitpos + 7, 32);
    LowDigit(w % 128, bitpos, result);
    Varint32Round(w, bitpos, result, sum);
  }

  /** Seven bits fewer. */
  lemma DivideBound(w: nat, n: nat)
    requires n >= 7
    ensures w < Pow2(n) <==> w / 128 < Pow2(n - 7)
  {
    Pow2Add(n - 7, 7);
    ScaleByte(Pow2(n - 7));
  }

  lemma {:induction false} ScaleBound(q: nat, b: nat, n: nat)
    ensures Scale(q, b) < Pow2(b + n) <==> q < Pow2(n)
  {
    if b > 0 {
      ScaleBound(q, b - 1, n);
    }
  }

  lemma HighByte(w: nat, bitpos: nat, result: nat, ored: nat)
    requires 32 <= bitpos < 63 && w > 0
    ensures var round := Round32(FirstByte(w), bitpos, result, ored);
            round.Refuse? || (w >= 128 && round == Continue(bitpos + 7, result))
  {
    assert FirstByte(w) % 128 == w % 128;
    if w < 128 {
      assert w % 128 == w;
    }
  }

  /** One round past bit 32: a byte that is let through changes nothing. */
  lemma HighRound(w: nat, bitpos: nat, result: nat)
    requires 32 <= bitpos < 63 && w > 0
    ensures Loop32(w, bitpos, result).None?
            || (w >= 128 && Loop32(w, bitpos, result) == Loop32(w / 128, bitpos + 7, result))
  {
    HighByte(w, bitpos, result, Or(result, ShiftLeft(w % 128, bitpos, 32)));
  }

  /** A digit other than zero past bit 32, in a value below 2 to the 63: refused, at the latest with the
      last byte. */
  lemma {:induction false} HighDigitsFail(w: nat, bitpos: nat, result: nat)
    requires 32 <= bitpos < 63 && 0 < w < Pow2(63 - bitpos)
    ensures Loop32(w, bitpos, result).None?
    decreases w
  {
    HighRound(w, bitpos, result);
    if w >= 128 {
      if 63 - bitpos < 7 {
        Pow2Monotone(63 - bitpos, 7);
        ScaleByte(1);
      }
      DivideBound(w, 63 - bitpos);
      HighDigitsFail(w / 128, bitpos + 7, result);
    }
  }

  /** The loop from bit `bitpos` on: the rest of the value is added to the total if it fits, and otherwise
      the value is refused. */
  lemma {:induction false} Loop32Value(w: nat, bitpos: nat, result: nat, total: nat, fits: bool)
    requires (LowPlace(bitpos) || bitpos == 28) && result < Pow2(bitpos) && w < Pow2(63 - bitpos)
    requires total == result + Scale(w, bitpos) && (fits <==> w < Pow2(32 - bitpos))
    ensures Loop32(w, bitpos, result) == if fits then Some(total) else None
    decreases w, 1
  {
    if bitpos == 28 {
      FifthDigit(w, bitpos, result);
    } else if w < 128 {
      LastDigit(w, bitpos, result);
    } else {
      var sum := MiddleDigit(w, bitpos, result);
      Loop32Value(w / 128, bitpos + 7, sum, total, fits);
    }
  }

  lemma MiddleDigit(w: nat, bitpos: nat, result: nat) returns (sum: nat)
    requires LowPlace(bitpos) && result < Pow2(bitpos) && 128 <= w < Pow2(63 - bitpos)
    ensures sum < Pow2(bitpos + 7) && sum + Scale(w / 128, bitpos + 7) == result + Scale(w, bitpos)
    ensures Loop32(w, bitpos, result) == Loop32(w / 128, bitpos + 7, sum)
    ensures w / 128 < Pow2(63 - (bitpos + 7)) && (w < Pow2(32 - bitpos) <==> w / 128 < Pow2(32 - (bitpos + 7)))
    ensures LowPlace(bitpos + 7) || bitpos + 7 == 28
  {
    DivideBound(w, 63 - bitpos);
    DivideBound(w, 32 - bitpos);
    sum := GatherRound(w, bitpos, result);
  }

  lemma FifthDigit(w: nat, bitpos: nat, result: nat)
    requires bitpos == 28 && result < Pow2(bitpos) && w < Pow2(63 - bitpos)
    ensures Loop32(w, bitpos, result) == if w < Pow2(32 - bitpos) then Some(result + Scale(w, bitpos)) else None
  {
    var sum := Or(result, ShiftLeft(w % 128, bitpos, 32));
    Varint32Round(w, bitpos, result, sum);
    assert Pow2(4) == 16 && 63 - bitpos == bitpos + 7 && 32 - bitpos == 4;
    if w >= 128 {
      DivideBound(w, bitpos + 7);
      HighDigitsFail(w / 128, bitpos + 7, sum);
    } else if w < 16 {
      SmallDigit(w, bitpos, result, 4);
    }
  }

  /** A digit of few enough bits is added whole. */
  lemma SmallDigit(w: nat, bitpos: nat, result: nat, n: nat)
    requires bitpos + n <= 32 && bitpos <= 28 && result < Pow2(bitpos) && w < Pow2(n) && w < 128
    ensures Or(result, ShiftLeft(w % 128, bitpos, 32)) == result + Scale(w, bitpos)
  {
    ScaleBound(w, bitpos, n);
    Pow2Monotone(bitpos + n, 32);
    assert w % 128 == w;
    LowDigit(w, bitpos, result);
  }

  lemma LastDigit(w: nat, bitpos: nat, result: nat)
    requires LowPlace(bitpos) && result < Pow2(bitpos) && w < 128
    ensures w < Pow2(32 - bitpos) && Loop32(w, bitpos, result) == Some(result + Scale(w, bitpos))
  {
    var sum := Or(result, ShiftLeft(w % 128, bitpos, 32));
    Varint32Round(w, bitpos, result, sum);
    PowersOfTwo();
    SmallDigit(w, bitpos, result, 7);
    Pow2Monotone(7, 32 - bitpos);
  }

  lemma OneDigit(v: nat, tail: seq<byte>)
    requires v >= 128
    ensures ReadVarint32(EncodeVarint(v) + tail) == Varint32From(EncodeVarint(v / 128) + tail, 7, v % 128)
  {
    FirstDigit(v, tail);
  }

  lemma LongVarint32(v: nat)
    requires 128 <= v < TWO63
    ensures Loop32(v / 128, 7, v % 128) == if v < TWO32 then Some(v) else None
  {
    PowersOfTwo();
    DivideBound(v, 63);
    DivideBound(v, 32);
    ScaleByte(v / 128);
    Loop32Value(v / 128, 7, v % 128, v, v < TWO32);
  }

  /** The digits of a larger value up to bit 28 are gathered. */
  lemma {:induction false} GatherTo28(w: nat, bitpos: nat, result: nat) returns (high: nat, low: nat)
    requires (LowPlace(bitpos) || bitpos == 28) && result < Pow2(bitpos) && w >= Pow2(35 - bitpos)
    ensures Loop32(w, bitpos, result) == Loop32(high, 28, low)
    ensures low < Pow2(28) && low + Scale(high, 28) == result + Scale(w, bitpos)
    decreases w
  {
    if bitpos == 28 {
      high, low := w, result;
    } else {
      Pow2Monotone(7, 35 - bitpos);
      ScaleByte(1);
      DivideBound(w, 35 - bitpos);
      var sum := GatherRound(w, bitpos, result);
      high, low := GatherTo28(w / 128, bitpos + 7, sum);
    }
  }

  /** A digit past bit 32 that the decoder lets through: zeros, or the ones of a sign extension. */
  predicate FillDigit(d: nat) {
    d == 0 || d == 127
  }

  /** The values whose canonical encodings the 32-bit decoder accepts: those of 32 bits; and those with the
      top bit set, bit 31 set, and nothing but fill digits at bits 35, 42, 49 and 56. What stands at bits 32
      to 34 does not matter. */
  predicate Accepted32(v: nat) {
    v < TWO32 || (v >= TWO63 && v % TWO32 >= TWO31 && FourFilled(v / 0x8_0000_0000))
  }

  predicate FourFilled(w: nat) {
    FillDigit(w % 128) && FillDigit(w / 0x80 % 128) && FillDigit(w / 0x4000 % 128) && FillDigit(w / 0x20_0000 % 128)
  }

  predicate Filled(w: nat, n: nat) {
    n == 0 || (FillDigit(w % 128) && Filled(w / 128, n - 1))
  }

  lemma DigitsOf(w: nat)
    ensures w / 128 / 128 == w / 0x4000 && w / 0x4000 / 128 == w / 0x20_0000
  {
  }

  lemma FourDigits(w: nat, n: nat)
    requires n == 4
    ensures Filled(w, n) <==> FourFilled(w)
  {
    DigitsOf(w);
    var w1, w2, w3 := w / 128, w / 0x4000, w / 0x20_0000;
    assert Filled(w, n) <==> FillDigit(w % 128) && Filled(w1, n - 1);
    assert Filled(w1, n - 1) <==> FillDigit(w1 % 128) && Filled(w2, n - 2);
    assert Filled(w2, n - 2) <==> FillDigit(w2 % 128) && Filled(w3, n - 3);
    assert Filled(w3, n - 3) <==> FillDigit(w3 % 128) && Filled(w3 / 128, n - 4);
  }

  /** One round past bit 32, in a value that goes on. */
  lemma FillRound(w: nat, bitpos: nat, sum: nat)
    requires w >= 128 && 32 <= bitpos < 63 && sum < TWO32
    ensures Loop32(w, bitpos, sum) ==
            if w % 128 == 0 || (w % 128 == 127 && sum >= TWO31) then Loop32(w / 128, bitpos + 7, sum) else None
  {
    FillByte(w, bitpos, sum, Or(sum, ShiftLeft(w % 128, bitpos, 32)));
  }

  lemma FillByte(w: nat, bitpos: nat, sum: nat, ored: nat)
    requires w >= 128 && 32 <= bitpos < 63 && sum < TWO32
    ensures Round32(FirstByte(w), bitpos, sum, ored) ==
            if w % 128 == 0 || (w % 128 == 127 && sum >= TWO31) then Continue(bitpos + 7, sum) else Refuse
  {
    assert FirstByte(w) % 128 == w % 128;
  }

  /** The last digit of a value with the top bit set. */
  lemma LastFill(w: nat, bitpos: nat, sum: nat)
    requires w == 1 && bitpos == 63 && sum < TWO32
    ensures Loop32(w, bitpos, sum) == if sum >= TWO31 then Some(sum) else None
  {
    var ored := Or(sum, ShiftLeft(w % 128, bitpos, 32));
    assert Round32(FirstByte(w), bitpos, sum, ored) == if sum >= TWO31 then Finish(sum) else Refuse;
  }

  lemma FillBound(w: nat, n: nat)
    requires Pow2(n + 7) <= w < 2 * Pow2(n + 7)
    ensures Pow2(n) <= w / 128 < 2 * Pow2(n) && w >= 128
  {
    Pow2Add(n, 7);
    ScaleByte(Pow2(n));
  }

  /** The digits from bit 35 on. */
  lemma {:induction false} FillDigits(w: nat, n: nat, bitpos: nat, sum: nat)
    requires n <= 4 && bitpos == 63 - 7 * n && Pow2(7 * n) <= w < 2 * Pow2(7 * n) && sum < TWO32
    ensures Loop32(w, bitpos, sum) == if sum >= TWO31 && Filled(w, n) then Some(sum) else None
  {
    if n == 0 {
      assert w == 1;
      LastFill(w, bitpos, sum);
    } else {
      FillBound(w, 7 * (n - 1));
      FillRound(w, bitpos, sum);
      FillDigits(w / 128, n - 1, bitpos + 7, sum);
    }
  }

  /** A value with the top bit set, from the digit at bit 28 on: its lower half completes the 32-bit word. */
  lemma TopBitSet(high: nat, low: nat, bitpos: nat, sum: nat, fits: bool)
    requires bitpos == 28 && low < Pow2(bitpos) && 0x1000_0000 <= high / 128 < 0x2000_0000
    requires sum == low + 0x1000_0000 * (high % 128 % 16) < TWO32
    requires fits <==> sum >= TWO31 && FourFilled(high / 128)
    ensures Loop32(high, bitpos, low) == if fits then Some(sum) else None
  {
    PowersOfTwo();
    LowerHalf(low, high % 128, bitpos);
    Varint32Round(high, bitpos, low, sum);
    var n := bitpos / 7;
    FourDigits(high / 128, n);
    FillDigits(high / 128, n, bitpos + 7, sum);
  }

  lemma SplitByte(low: nat, r: nat, q: nat, v: nat)
    requires low < 0x1000_0000 && r < 128 && v == low + 0x1000_0000 * r + 0x8_0000_0000 * q
    ensures v / 0x8_0000_0000 == q && v % TWO32 == low + 0x1000_0000 * (r % 16)
  {
    var a, b := r / 16, r % 16;
    assert r == 16 * a + b;
    AboveBit35(low + 0x1000_0000 * r, q);
    BelowBit32(low + 0x1000_0000 * b, a + 8 * q);
  }

  lemma AboveBit35(low: nat, high: nat)
    requires low < 0x8_0000_0000
    ensures (low + 0x8_0000_0000 * high) / 0x8_0000_0000 == high
  {
  }

  lemma BelowBit32(low: nat, high: nat)
    requires low < TWO32
    ensures (low + TWO32 * high) % TWO32 == low
  {
  }

  lemma TopParts(v: nat, high: nat, low: nat)
    requires TWO63 <= v < TWO64 && low < 0x1000_0000 && low + 0x1000_0000 * high == v
    ensures 0x1000_0000 <= high / 128 < 0x2000_0000 && high / 128 == v / 0x8_0000_0000
    ensures low + 0x1000_0000 * (high % 128 % 16) == v % TWO32
  {
    var q, r := high / 128, high % 128;
    var below := low + 0x1000_0000 * r;
    assert v == below + 0x8_0000_0000 * q;
    SplitByte(low, r, q, v);
  }

  lemma LowerHalf(low: nat, d: nat, bitpos: nat)
    requires bitpos == 28 && low < Pow2(bitpos) && d < 128
    ensures Or(low, ShiftLeft(d, bitpos, bitpos + 4)) == low + 0x1000_0000 * (d % 16)
  {
    var n := bitpos / 7;
    LowScale(d, bitpos, n);
    LowFour(d, n);
    Scale28(d % 16, bitpos);
    OrIsAdd(low, d % 16, bitpos);
  }

  lemma Scale28(m: nat, n: nat)
    requires n == 28
    ensures Scale(m, n) == 0x1000_0000 * m
  {
    ScaleByte(m);
    ScaleAdd(m, 7, n - 21);
    ScaleByte(128 * m);
    ScaleAdd(m, 14, n - 21);
    ScaleByte(0x4000 * m);
    ScaleAdd(m, 21, n - 21);
    ScaleByte(0x20_0000 * m);
  }

  lemma LowFour(d: nat, n: nat)
    requires n == 4
    ensures Low(d, n) == d % 16
  {
    LowTwice(d / 2 / 2 / 2, n - 3, 1);
    LowTwice(d / 2 / 2, n - 2, 2);
    LowTwice(d / 2, n - 1, 4);
    LowTwice(d, n, 8);
  }

  lemma LowTwice(d: nat, n: nat, p: nat)
    requires n > 0 && p > 0 && Low(d / 2, n - 1) == d / 2 % p
    ensures Low(d, n) == d % (2 * p)
  {
    ModUnique(d, 2 * p, d / 2 / p, 2 * (d / 2 % p) + d % 2);
  }

  lemma LongVarint32Top(v: nat, fits: bool)
    requires TWO63 <= v < TWO64 && (fits <==> v % TWO32 >= TWO31 && FourFilled(v / 0x8_0000_0000))
    ensures Loop32(v / 128, 7, v % 128) == if fits then Some(v % TWO32) else None
  {
    PowersOfTwo();
    ScaleByte(v / 128);
    DivideBound(v, 35);
    var high, low := GatherTo28(v / 128, 7, v % 128);
    Scale28(high, 28);
    TopParts(v, high, low);
    TopBitSet(high, low, 28, v % TWO32, fits);
  }

  lemma LongDecodes(v: nat, tail: seq<byte>, value: Option<nat>)
    requires v >= 128 && Loop32(v / 128, 7, v % 128) == value
    ensures ReadVarint32(EncodeVarint(v) + tail) == if value.Some? then Some(Got(value.value, tail)) else None
  {
    OneDigit(v, tail);
    Unroll(v / 128, tail, 7, v % 128);
  }

  /** What the 32-bit decoder makes of a value: its low 32 bits, or a refusal. */
  function Decoded32(v: nat): Option<nat> {
    if Accepted32(v) then Some(v % TWO32) else None
  }

  lemma SmallDecoded(v: nat)
    requires v < TWO63
    ensures Decoded32(v) == if v < TWO32 then Some(v) else None
  {
  }

  lemma NegativeDecoded(m: nat)
    requires 1 <= m <= TWO31
    ensures Decoded32(TWO64 - m) == Some(TWO32 - m)
  {
    var v: nat := TWO64 - m;
    assert v == TWO32 * (TWO32 - 1) + (TWO32 - m);
    assert v == 0x8_0000_0000 * 0x1fff_ffff + (0x8_0000_0000 - m);
    assert FourFilled(0x1fff_ffff);
  }

  lemma LongDecoded(v: nat)
    requires 128 <= v < TWO64
    ensures Loop32(v / 128, 7, v % 128) == Decoded32(v)
  {
    if v < TWO63 {
      LongVarint32(v);
      SmallDecoded(v);
    } else {
      LongVarint32Top(v, Decoded32(v).Some?);
    }
  }

  /** The 32-bit decoder on the canonical encoding of any 64-bit value. */
  lemma Varint32Decodes(v: nat, tail: seq<byte>)
    requires v < TWO64
    ensures var value := Decoded32(v);
            ReadVarint32(EncodeVarint(v) + tail) == if value.Some? then Some(Got(value.value, tail)) else None
  {
    if v < 128 {
      FirstDigit(v, tail);
      SmallDecoded(v);
    } else {
      LongDecoded(v);
      LongDecodes(v, tail, Decoded32(v));
    }
  }

  /** So below 2 to the 63 it gives the value if it fits and refuses it otherwise. */
  lemma Varint32RoundTrip(v: nat, tail: seq<byte>)
    requires v < TWO63
    ensures ReadVarint32(EncodeVarint(v) + tail) == if v < TWO32 then Some(Got(v, tail)) else None
  {
    Varint32Decodes(v, tail);
    SmallDecoded(v);
  }

  /** And a negative 32-bit number, sign-extended to 64 bits as encoders must do, comes back as its low 32
      bits. */
  lemma Varint32SignExtended(m: nat, tail: seq<byte>)
    requires 1 <= m <= TWO31
    ensures ReadVarint32(EncodeVarint(TWO64 - m) + tail) == Some(Got(TWO32 - m, tail))
  {
    Varint32Decodes(TWO64 - m, tail);
    NegativeDecoded(m);
  }

  /** An encoding that is not canonical can be accepted although its value does not fit: 7 times 2 to the 32,
      with a zero digit behind it. */
  lemma UncanonicalAccepted()
    ensures var s: seq<byte> := [0x80, 0x80, 0x80, 0x80, 0xf0, 0x00];
            ReadVarint(s) == Some(Got(7 * TWO32, [])) && ReadVarint32(s) == Some(Got(0, []))
  {
    var s: seq<byte> := [0x80, 0x80, 0x80, 0x80, 0xf0, 0x00];
    assert s[4] == 0xf0 && s[4..][1..] == [0x00];
    Uncanonical64(s, 0);
    Uncanonical32(s, 7);
  }

  lemma Uncanonical64(s: seq<byte>, start: nat)
    requires start == 0 && |s| == 6 && (forall i :: 0 <= i < 4 ==> s[i] == 0x80) && s[4] == 0xf0
             && s[4..][1..] == [0x00]
    ensures VarintFrom(s, start, 0) == Some(Got(7 * TWO32, []))
  {
    var t1, t2, t3, t4 := s[1..], s[2..], s[3..], s[4..];
    assert t1[1..] == t2 && t2[1..] == t3 && t3[1..] == t4;
    Seven64(t4, start + 28, 0x70);
    ZeroDigit64(t3, start + 21, t4);
    ZeroDigit64(t2, start + 14, t3);
    ZeroDigit64(t1, start + 7, t2);
    ZeroDigit64(s, start, t1);
  }

  lemma Uncanonical32(s: seq<byte>, start: nat)
    requires start == 7 && |s| == 6 && (forall i :: 0 <= i < 4 ==> s[i] == 0x80) && s[4] == 0xf0
             && s[4..][1..] == [0x00]
    ensures Varint32From(s[1..], start, 0) == Some(Got(0, []))
  {
    var t1, t2, t3, t4 := s[1..], s[2..], s[3..], s[4..];
    assert t1[1..] == t2 && t2[1..] == t3 && t3[1..] == t4;
    Seven32(t4, start + 21, 0x70);
    ZeroDigit32(t3, start + 14, t4);
    ZeroDigit32(t2, start + 7, t3);
    ZeroDigit32(t1, start, t2);
  }

  lemma NoDigit(bitpos: nat, result: nat, width: nat)
    ensures Or(result, ShiftLeft(0, bitpos, width)) == result
  {
    ZeroScale(bitpos);
    LowSmall(0, width);
  }

  /** A digit of zero that is not the last. */
  lemma ZeroDigit64(s: seq<byte>, bitpos: nat, rest: seq<byte>)
    requires s != [] && s[0] == 0x80 && rest == s[1..] && bitpos < 64
    ensures VarintFrom(s, bitpos, 0) == VarintFrom(rest, bitpos + 7, 0)
  {
    NoDigit(bitpos, 0, 64);
    VarintTurn(s, bitpos, 0);
  }

  lemma ZeroDigit32(s: seq<byte>, bitpos: nat, rest: seq<byte>)
    requires s != [] && s[0] == 0x80 && rest == s[1..] && bitpos <= 21
    ensures Varint32From(s, bitpos, 0) == Varint32From(rest, bitpos + 7, 0)
  {
    NoDigit(bitpos, 0, 32);
    MiddleByte(0x80, bitpos);
    Varint32Turn(s, bitpos, 0, 0, Continue(bitpos + 7, 0));
  }

  lemma MiddleByte(b: byte, bitpos: nat)
    requires b >= 128 && bitpos <= 28
    ensures Round32(b, bitpos, 0, 0) == Continue(bitpos + 7, 0)
  {
  }

  lemma Varint32Turn(s: seq<byte>, bitpos: nat, result: nat, ored: nat, round: Round)
    requires s != [] && ored == Or(result, ShiftLeft(s[0] % 128, bitpos, 32))
             && round == Round32(s[0], bitpos, result, ored)
    ensures Varint32From(s, bitpos, result) ==
            if round.Refuse? then None
            else if round.Finish? then Some(Got(round.value, s[1..]))
            else Varint32From(s[1..], round.bitpos, round.value)
  {
  }

  lemma LastZero(s: seq<byte>, bitpos: nat, result: nat)
    requires s == [0x00] && 32 <= bitpos < 64
    ensures VarintFrom(s, bitpos, result) == Some(Got(result, []))
  {
    NoDigit(bitpos, result, 64);
    VarintTurn(s, bitpos, result);
  }

  lemma LastZero32(s: seq<byte>, bitpos: nat)
    requires s == [0x00] && 32 <= bitpos < 64
    ensures Varint32From(s, bitpos, 0) == Some(Got(0, []))
  {
    NoDigit(bitpos, 0, 32);
    Varint32Turn(s, bitpos, 0, 0, Finish(0));
  }

  lemma SevenAt28(d: nat, bitpos: nat, width: nat)
    requires bitpos == 28 && d == 0x70 && width == 64
    ensures Or(0, ShiftLeft(d, bitpos, width)) == 7 * TWO32
  {
    Scale28(d, bitpos);
    SevenWhole(d, bitpos, width);
  }

  lemma SevenWhole(d: nat, bitpos: nat, width: nat)
    requires Scale(d, bitpos) == 7 * TWO32 && width == 64
    ensures Or(0, ShiftLeft(d, bitpos, width)) == 7 * TWO32
  {
    PowersOfTwo();
    LowSmall(7 * TWO32, width);
  }

  lemma Seven64(s: seq<byte>, bitpos: nat, d: nat)
    requires bitpos == 28 && d == 0x70 && |s| == 2 && s[0] == d + 128 && s[1..] == [0x00]
    ensures VarintFrom(s, bitpos, 0) == Some(Got(7 * TWO32, []))
  {
    SevenAt28(d, bitpos, 64);
    LastZero(s[1..], bitpos + 7, 7 * TWO32);
    VarintGoesOn(s, bitpos, d, 7 * TWO32);
  }

  lemma VarintGoesOn(s: seq<byte>, bitpos: nat, d: nat, next: nat)
    requires s != [] && bitpos < 64 && d < 128 && s[0] == d + 128 && next == Or(0, ShiftLeft(d, bitpos, 64))
    ensures VarintFrom(s, bitpos, 0) == VarintFrom(s[1..], bitpos + 7, next)
  {
    assert s[0] % 128 == d;
    VarintTurn(s, bitpos, 0);
  }

  lemma SevenOred(bitpos: nat, d: nat)
    requires bitpos == 28 && d < 128 && d % 16 == 0
    ensures Or(0, ShiftLeft(d, bitpos, bitpos + 4)) == 0
  {
    LowerHalf(0, d, bitpos);
  }

  lemma Seven32(s: seq<byte>, bitpos: nat, d: nat)
    requires bitpos == 28 && d == 0x70 && |s| == 2 && s[0] == d + 128 && s[1..] == [0x00]
    ensures Varint32From(s, bitpos, 0) == Some(Got(0, []))
  {
    SevenOred(bitpos, d);
    assert s[0] % 128 == d;
    MiddleByte(s[0], bitpos);
    LastZero32(s[1..], bitpos + 7);
    Varint32Turn(s, bitpos, 0, 0, Continue(bitpos + 7, 0));
  }

  // ----- zigzag and fixed width -----

  predicate Int64(i: int) {
    -TWO63 <= i < TWO63
  }

  /** `(uint64_t)value`: two's complement. */
  function ToUnsigned64(i: int): (v: nat)
    requires Int64(i)
    ensures v < TWO64
  {
    if i < 0 then TWO64 + i else i
  }

  /** `(int64_t)value`. */
  function ToSigned64(v: nat): (i: int)
    requires v < TWO64
    ensures Int64(i)
  {
    if v < TWO63 then v else v - TWO64
  }

  /** `pb_encode_svarint` before the varint: shift left, and complement if negative. */
  function ZigZag(i: int): (v: nat)
    requires Int64(i)
    ensures v < TWO64
  {
    var shifted := ToUnsigned64(i) * 2 % TWO64;
    if i < 0 then TWO64 - 1 - shifted else shifted
  }

  /** `pb_decode_svarint` after the varint. */
  function UnZigZag(v: nat): (i: int)
    requires v < TWO64
    ensures Int64(i)
  {
    ToSigned64(if v % 2 == 1 then TWO64 - 1 - v / 2 else v / 2)
  }

  lemma ZigZagRoundTrip(i: int)
    requires Int64(i)
    ensures UnZigZag(ZigZag(i)) == i
    ensures ZigZag(i) == if i < 0 then -2 * i - 1 else 2 * i
  {
  }

  /** `n` bytes of `v`, least significant first. */
  function LittleEndian(v: nat, n: nat): (s: seq<byte>)
    ensures |s| == n
  {
    if n == 0 then [] else [v % 256] + LittleEndian(v / 256, n - 1)
  }

  function FromLittleEndian(s: seq<byte>): nat {
    if s == [] then 0 else s[0] + 256 * FromLittleEndian(s[1..])
  }

  lemma {:induction false} FixedRoundTrip(v: nat, n: nat)
    requires v < Pow2(8 * n)
    ensures FromLittleEndian(LittleEndian(v, n)) == v
  {
    if n > 0 {
      Pow2Add(8 * (n - 1), 8);
      ScaleByte(Pow2(8 * (n - 1)));
      FixedRoundTrip(v / 256, n - 1);
      assert LittleEndian(v, n)[1..] == LittleEndian(v / 256, n - 1);
    }
  }

  lemma {:induction false} FixedFits(s: seq<byte>)
    ensures FromLittleEndian(s) < Pow2(8 * |s|)
  {
    if s != [] {
      Pow2Add(8 * (|s| - 1), 8);
      ScaleByte(Pow2(8 * (|s| - 1)));
      FixedFits(s[1..]);
    }
  }
}
