/** What nanopb's decoder makes of its input, as functions on byte sequences. A call either fails or
    gives the new contents and the rest of the input. */
module PbDecodeSpec {
  import opened Words
  import opened Bytes
  import opened Wrappers
  import opened PbWire
  import opened PbSchema
  import opened PbFieldIter

  // ----- default values -----

  function Zeros(n: nat): (s: seq<byte>)
    ensures |s| == n
  {
    seq(n, i => 0)
  }

  /** The value a field is initialised to: its submessage's defaults, its own default, or zero. */
  function DefaultVal(f: Field): Val
    decreases f, 0
  {
    match f.ltype
    case SubMsg(sub) => Msg(Defaults(sub))
    case Bytes | String => if f.default.Some? then f.default.value else Blob([])
    case FixedBytes => if f.default.Some? then f.default.value else Blob(Zeros(f.dataSize))
    case _ => if f.default.Some? then f.default.value else Num(0)
  }

  /** An array with these entries in its memory. */
  function Listed(f: Field, items: seq<Val>): Slot {
    Many(items, FirstWord(f, items))
  }

  /** `pb_field_set_to_default`. */
  function DefaultSlot(f: Field): Slot
    decreases f, 1
  {
    match f.htype
    case Required | Optional => Single(false, DefaultVal(f))
    case Repeated => Listed(f, if f.FixedCount() then seq(f.arraySize, i => ZeroItem(f)) else [])
    case Oneof => Chosen(0, Num(0))
  }

  function ZeroItem(f: Field): Val
    decreases f, 0
  {
    match f.ltype
    case SubMsg(sub) => Msg(Defaults(sub))
    case Bytes | String => Blob([])
    case FixedBytes => Blob(Zeros(f.dataSize))
    case _ => Num(0)
  }

  /** `pb_message_set_to_defaults`. */
  function Defaults(desc: Desc): (slots: seq<Slot>)
    ensures |slots| == |desc.fields|
    decreases desc
  {
    seq(|desc.fields|, i requires 0 <= i < |desc.fields| => DefaultSlot(desc.fields[i]))
  }

  // ----- values -----

  /** `pb_dec_varint`: fields of up to 32 bits first take the low 32 bits, then must fit. */
  function DecSigned(f: Field, v: nat): Option<Val>
    requires v < TWO64
  {
    if !IntSize(f.dataSize) then None
    else if f.dataSize == 8 then Some(Num(ToSigned64(v)))
    else Narrow(f, if v % TWO32 < TWO31 then v % TWO32 else v % TWO32 - TWO32)
  }

  /** The "integer too large" check for a signed field. */
  function Narrow(f: Field, i: int): Option<Val> {
    if InRange(f.dataSize, i) then Some(Num(i)) else None
  }

  predicate InRange(size: nat, i: int) {
    || (size == 1 && -0x80 <= i < 0x80)
    || (size == 2 && -0x8000 <= i < 0x8000)
    || (size == 4 && -TWO31 <= i < TWO31)
    || (size == 8 && Int64(i))
  }

  predicate InRangeUnsigned(size: nat, v: int) {
    || (size == 1 && 0 <= v < 0x100)
    || (size == 2 && 0 <= v < 0x1_0000)
    || (size == 4 && 0 <= v < TWO32)
    || (size == 8 && 0 <= v < TWO64)
  }

  /** A C string ends at its first zero byte. */
  function UpToNul(b: seq<byte>): seq<byte> {
    if b == [] || b[0] == 0 then [] else [b[0]] + UpToNul(b[1..])
  }

  function Take<T>(v: Option<T>, rest: seq<byte>): Option<Got<T>> {
    if v.None? then None else Some(Got(v.value, rest))
  }

  lemma VarintIsWord(s: seq<byte>, bitpos: nat, result: nat)
    requires VarintFrom(s, bitpos, result).Some? && result < TWO64
    ensures VarintFrom(s, bitpos, result).value.value < TWO64
    decreases |s|
  {
    PowersOfTwo();
    var digit := ShiftLeft(s[0] % 128, bitpos, 64);
    LowFits(Scale(s[0] % 128, bitpos), 64);
    OrFits(result, digit, 64);
    if s[0] >= 128 {
      VarintIsWord(s[1..], bitpos + 7, Or(result, digit));
    }
  }

  function ReadWord(s: seq<byte>): (r: Option<Got<nat>>)
    ensures r == ReadVarint(s)
    ensures r.Some? ==> r.value.value < TWO64
  {
    var r := ReadVarint(s);
    if r.Some? then VarintIsWord(s, 0, 0); r else r
  }

  /** A length prefix and as many bytes. */
  function ReadPrefixed(s: seq<byte>): (r: Option<Got<seq<byte>>>)
    ensures r.Some? ==> |r.value.value| + |r.value.rest| < |s|
  {
    var n := ReadVarint32(s);
    if n.None? || |n.value.rest| < n.value.value then None
    else Some(Got(n.value.rest[..n.value.value], n.value.rest[n.value.value..]))
  }

  function DecInteger(f: Field, s: seq<byte>): (r: Option<Got<Val>>)
    ensures r.Some? ==> |r.value.rest| < |s|
  {
    var v := ReadWord(s);
    if v.None? then None
    else if f.ltype.Varint? then Take(DecSigned(f, v.value.value), v.value.rest)
    else if f.ltype.SVarint? then Take(Narrow(f, UnZigZag(v.value.value)), v.value.rest)
    else if !InRangeUnsigned(f.dataSize, v.value.value) then None
    else Some(Got(Num(v.value.value), v.value.rest))
  }

  function DecFixed(s: seq<byte>, n: nat): (r: Option<Got<Val>>)
    requires n > 0
    ensures r.Some? ==> |r.value.rest| < |s|
  {
    if |s| < n then None else Some(Got(Num(FromLittleEndian(s[..n])), s[n..]))
  }

  /** Bytes, a string or bytes of a fixed length, behind a length. An empty value of fixed length stands
      for zeros. */
  function DecBlob(f: Field, s: seq<byte>): (r: Option<Got<Val>>)
    ensures r.Some? ==> |r.value.rest| < |s|
  {
    var n := ReadVarint32(s);
    if n.None? then None
    else
      var size, rest := n.value.value, n.value.rest;
      if f.ltype.FixedBytes? && size == 0 then Some(Got(Blob(Zeros(f.dataSize)), rest))
      else if !SizeFits(f, size) || |rest| < size then None
      else Some(Got(Blob(if f.ltype.String? then UpToNul(rest[..size]) else rest[..size]), rest[size..]))
  }

  predicate SizeFits(f: Field, size: nat) {
    if f.ltype.Bytes? then size + BYTES_HEADER <= f.dataSize
    else if f.ltype.String? then size + 1 <= f.dataSize
    else size == f.dataSize
  }

  /** The field decoders. `was` is what is in the destination; only a submessage that is not an array
      entry looks at it. */
  function DecVal(f: Field, s: seq<byte>, was: Val): (r: Option<Got<Val>>)
    ensures r.Some? ==> |r.value.rest| < |s|
    decreases |s|, 1
  {
    match f.ltype
    case Fixed32 => DecFixed(s, 4)
    case Fixed64 => DecFixed(s, 8)
    case Bytes => DecBlob(f, s)
    case String => DecBlob(f, s)
    case FixedBytes => DecBlob(f, s)
    case SubMsg(sub) => DecSubMsg(f, sub, s, was)
    case _ => DecInteger(f, s)
  }

  function DecSubMsg(f: Field, sub: Desc, s: seq<byte>, was: Val): (r: Option<Got<Val>>)
    ensures r.Some? ==> |r.value.rest| < |s|
    decreases |s|, 0
  {
    var p := ReadPrefixed(s);
    if p.None? then None
    else
      var into := if f.htype.Repeated? || !was.Msg? then Defaults(sub) else was.slots;
      var m := DecMsg(sub, p.value.value, into);
      if m.None? then None else Some(Got(Msg(m.value.value), p.value.rest))
  }

  // ----- fields -----

  /** The contents so far, the fixed-count array being filled and how far it is, and which of the first
      64 required fields have been seen. */
  datatype State = State(slots: seq<Slot>, fixedField: Option<nat>, fixedCount: nat, seen: set<nat>)

  /** An array with its next entry: appended, or stored at the given place of a fixed-count array. */
  function PutItem(f: Field, items: seq<Val>, count: nat, v: Val): seq<Val> {
    if f.FixedCount() then if count < |items| then items[count := v] else items
    else items + [v]
  }

  function OldItem(f: Field, items: seq<Val>, count: nat): Val {
    if f.FixedCount() && count < |items| then items[count] else Num(0)
  }

  datatype Array = Array(items: seq<Val>, count: nat)

  /** The loop over a packed array: until the bytes or the places run out; bytes left over are an error. */
  function DecPacked(f: Field, s: seq<byte>, a: Array): Option<Array>
    decreases |s|, 2
  {
    if s == [] then Some(a)
    else if a.count >= f.arraySize then None
    else
      var v := DecVal(f, s, OldItem(f, a.items, a.count));
      if v.None? then None
      else DecPacked(f, v.value.rest, Array(PutItem(f, a.items, a.count, v.value.value), a.count + 1))
  }

  function DecPackedField(f: Field, s: seq<byte>, a: Array): (r: Option<Got<Array>>)
    ensures r.Some? ==> |r.value.rest| <= |s|
    decreases |s|, 2
  {
    var p := ReadPrefixed(s);
    if p.None? then None else Take(DecPacked(f, p.value.value, a), p.value.rest)
  }

  /** A single entry of an array. */
  function DecEntryField(f: Field, s: seq<byte>, a: Array): (r: Option<Got<Array>>)
    ensures r.Some? ==> |r.value.rest| <= |s|
    decreases |s|, 2
  {
    if a.count >= f.arraySize then None
    else
      var v := DecVal(f, s, OldItem(f, a.items, a.count));
      if v.None? then None
      else Some(Got(Array(PutItem(f, a.items, a.count, v.value.value), a.count + 1), v.value.rest))
  }

  /** An array field of `decode_static_field`: packed by wire type, or a single entry. */
  function DecRepeated(f: Field, wireType: nat, s: seq<byte>, a: Array): (r: Option<Got<Array>>)
    ensures r.Some? ==> |r.value.rest| <= |s|
    decreases |s|, 3
  {
    if wireType == WT_STRING && f.Packable() then DecPackedField(f, s, a) else DecEntryField(f, s, a)
  }

  predicate Shape(f: Field, s: Slot) {
    match f.htype
    case Required | Optional => s.Single?
    case Repeated => s.Many?
    case Oneof => s.Chosen?
  }

  /** A slot and, for a fixed-count array, how far it is filled. */
  datatype Placed = Placed(slot: Slot, count: nat)

  /** `decode_static_field`. */
  function DecStatic(f: Field, wireType: nat, s: seq<byte>, slot: Slot, count: nat): (r: Option<Got<Placed>>)
    ensures r.Some? ==> |r.value.rest| <= |s|
    decreases |s|, 4
  {
    if !Shape(f, slot) then None
    else
      match f.htype
      case Required =>
        var v := DecVal(f, s, slot.val);
        if v.None? then None else Some(Got(Placed(Single(slot.has, v.value.value), count), v.value.rest))
      case Optional =>
        var v := DecVal(f, s, slot.val);
        if v.None? then None
        else Some(Got(Placed(Single(slot.has || f.sizeOffset != 0, v.value.value), count), v.value.rest))
      case Oneof =>
        var v := DecVal(f, s, if f.ltype.SubMsg? then Msg(Defaults(f.ltype.desc)) else Num(0));
        if v.None? then None else Some(Got(Placed(Chosen(f.tag, v.value.value), count), v.value.rest))
      case Repeated =>
        var a := DecRepeated(f, wireType, s, Array(slot.items, if f.FixedCount() then count else |slot.items|));
        if a.None? then None
        else Some(Got(Placed(Listed(f, a.value.value.items), if f.FixedCount() then a.value.value.count else count),
          a.value.rest))
  }

  /** Setting a bit of `fields_seen`. */
  function MarkSeen(desc: Desc, i: nat, seen: set<nat>): set<nat>
    requires i < |desc.fields|
  {
    if desc.fields[i].htype.Required? && ReqIndex(desc, i) < MAX_REQUIRED_FIELDS then seen + {ReqIndex(desc, i)}
    else seen
  }

  /** What is noted down before field `i` is decoded. */
  function Noted(desc: Desc, i: nat, st: State): Option<State>
    requires i < |desc.fields|
  {
    if desc.fields[i].FixedCount() then StartFixed(desc, i, st)
    else Some(st.(seen := MarkSeen(desc, i, st.seen)))
  }

  /** One known field. */
  function DecField(desc: Desc, i: nat, wireType: nat, s: seq<byte>, st: State): (r: Option<Got<State>>)
    requires i < |desc.fields|
    ensures r.Some? ==> |r.value.rest| <= |s|
    decreases |s|, 5
  {
    var k, noted := SlotOf(desc, i), Noted(desc, i, st);
    if |st.slots| != |desc.fields| || noted.None? then None
    else
      var p := DecStatic(desc.fields[i], wireType, s, st.slots[k], noted.value.fixedCount);
      if p.None? then None
      else Some(Got(noted.value.(slots := st.slots[k := p.value.value.slot], fixedCount := p.value.value.count),
        p.value.rest))
  }

  /** A fixed-count field other than the one before starts at zero, and the one before must be complete. */
  function StartFixed(desc: Desc, i: nat, st: State): Option<State> {
    if st.fixedField == Some(i) then Some(st)
    else if !FixedComplete(desc, st) then None
    else Some(st.(fixedField := Some(i), fixedCount := 0))
  }

  predicate FixedComplete(desc: Desc, st: State) {
    st.fixedField.Some? ==>
      st.fixedField.value < |desc.fields| && st.fixedCount == desc.fields[st.fixedField.value].arraySize
  }

  // ----- messages -----

  datatype Tag = NoTag | ZeroTag(rest: seq<byte>) | FieldTag(tag: nat, wireType: nat, rest: seq<byte>)

  /** `pb_decode_tag`. A zero ends the message. */
  function ReadTag(s: seq<byte>): (t: Tag)
    ensures !t.NoTag? ==> |t.rest| < |s|
  {
    var v := ReadVarint32(s);
    if v.None? then NoTag
    else if v.value.value == 0 then ZeroTag(v.value.rest)
    else FieldTag(v.value.value / 8, v.value.value % 8, v.value.rest)
  }

  function SkipVarint(s: seq<byte>): (r: Option<seq<byte>>)
    ensures r.Some? ==> |r.value| <= |s|
  {
    if s == [] then None else if s[0] < 128 then Some(s[1..]) else SkipVarint(s[1..])
  }

  /** `pb_skip_field`. */
  function SkipField(wireType: nat, s: seq<byte>): (r: Option<seq<byte>>)
    ensures r.Some? ==> |r.value| <= |s|
  {
    if wireType == WT_VARINT then SkipVarint(s)
    else if wireType == WT_64BIT then if |s| < 8 then None else Some(s[8..])
    else if wireType == WT_STRING then
      var p := ReadPrefixed(s);
      if p.None? then None else Some(p.value.rest)
    else if wireType == WT_32BIT then if |s| < 4 then None else Some(s[4..])
    else None
  }

  function FindFrom(desc: Desc, tag: nat, i: nat): (r: Option<nat>)
    requires i <= |desc.fields|
    ensures r.Some? ==> i <= r.value < |desc.fields| && desc.fields[r.value].tag == tag
    ensures r.None? ==> forall j :: i <= j < |desc.fields| ==> desc.fields[j].tag != tag
    decreases |desc.fields| - i
  {
    if i == |desc.fields| then None else if desc.fields[i].tag == tag then Some(i) else FindFrom(desc, tag, i + 1)
  }

  /** With distinct tags, there is no other field to find. */
  lemma {:induction false} FirstMatch(desc: Desc, i: nat, from: nat)
    requires TagsDistinct(desc) && from <= i < |desc.fields|
    ensures FindFrom(desc, desc.fields[i].tag, from) == Some(i)
    decreases i - from
  {
    if from < i {
      FirstMatch(desc, i, from + 1);
    }
  }

  datatype Turn = Refused | Stopped(rest: seq<byte>) | Took(state: State, rest: seq<byte>)

  /** One turn of the loop of `pb_decode_noinit`: a zero tag, or a field with its tag. A field number of
      zero finds the terminator of an empty descriptor, which no value can be stored in. */
  function DecTurn(desc: Desc, s: seq<byte>, st: State): (r: Turn)
    ensures r.Took? ==> |r.rest| < |s|
    ensures r.Stopped? ==> |r.rest| < |s|
    decreases |s|, 6
  {
    var t := ReadTag(s);
    if t.NoTag? || (t.FieldTag? && t.tag == 0 && desc.fields == []) then Refused
    else if t.ZeroTag? then Stopped(t.rest)
    else
      var i := FindFrom(desc, t.tag, 0);
      if i.None? then
        var rest := SkipField(t.wireType, t.rest);
        if rest.None? then Refused else Took(st, rest.value)
      else
        var next := DecField(desc, i.value, t.wireType, t.rest, st);
        if next.None? then Refused else Took(next.value.value, next.value.rest)
  }

  datatype Loop = Loop(state: State, rest: seq<byte>, stopped: bool)

  /** The loop: to the end of the input, or to a zero tag (`stopped`). */
  function DecLoop(desc: Desc, s: seq<byte>, st: State): (r: Option<Loop>)
    ensures r.Some? ==> |r.value.rest| <= |s|
    decreases |s|, 7
  {
    if s == [] then Some(Loop(st, s, false))
    else
      match DecTurn(desc, s, st)
      case Refused => None
      case Stopped(rest) => Some(Loop(st, rest, true))
      case Took(next, rest) => DecLoop(desc, rest, next)
  }

  /** All required fields that are kept track of have been seen. */
  predicate RequiredSeen(desc: Desc, seen: set<nat>) {
    forall i :: 0 <= i < |desc.fields| && desc.fields[i].htype.Required? && ReqIndex(desc, i) < MAX_REQUIRED_FIELDS ==>
      ReqIndex(desc, i) in seen
  }

  function Start(slots: seq<Slot>): State {
    State(slots, None, 0, {})
  }

  /** `pb_decode_noinit`. */
  function DecMsg(desc: Desc, s: seq<byte>, slots: seq<Slot>): (r: Option<Got<seq<Slot>>>)
    ensures r.Some? ==> |r.value.rest| <= |s|
    decreases |s|, 8
  {
    var l := DecLoop(desc, s, Start(slots));
    if l.None? || !FixedComplete(desc, l.value.state) || !RequiredSeen(desc, l.value.state.seen) then None
    else Some(Got(l.value.state.slots, l.value.rest))
  }

  /** `pb_decode`. */
  function Decode(desc: Desc, s: seq<byte>): Option<Got<seq<Slot>>> {
    DecMsg(desc, s, Defaults(desc))
  }
}
