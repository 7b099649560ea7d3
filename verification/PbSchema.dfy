/** Message descriptors, message values, and what their encoding is. The build is the one with 32-bit
    field sizes (`PB_FIELD_32BIT`), static allocation only, and neither callbacks nor extensions. */
module PbSchema {
  import opened Bytes
  import opened Wrappers
  import opened PbWire
  import opened PbStreams

  const PB_SIZE_MAX := 0xffff_ffff
  const MAX_REQUIRED_FIELDS := 64

  /** The bytes in front of the payload of a `pb_bytes_array_t`. */
  const BYTES_HEADER := 4

  const WT_VARINT := 0
  const WT_64BIT := 1
  const WT_STRING := 2
  const WT_32BIT := 5

  datatype HType = Required | Optional | Repeated | Oneof

  datatype LType = Varint | UVarint | SVarint | Fixed32 | Fixed64 | Bytes | String | FixedBytes | SubMsg(desc: Desc)

  /** `pb_field_t`. `sizeOffset` is zero when there is no has-flag, count or selector in the struct. */
  datatype Field = Field(
    tag: nat, htype: HType, ltype: LType, dataOffset: nat, sizeOffset: int, dataSize: nat, arraySize: nat,
    default: Option<Val>) {

    predicate Packable() {
      ltype.Varint? || ltype.UVarint? || ltype.SVarint? || ltype.Fixed32? || ltype.Fixed64?
    }

    /** A repeated field that always has `arraySize` entries and no counter. */
    predicate FixedCount() {
      htype.Repeated? && sizeOffset == 0
    }

    /** A proto3 singular field: optional, but without a flag to say so. */
    predicate Singular() {
      htype.Optional? && sizeOffset == 0
    }

    function WireType(): nat {
      match ltype
      case Varint | UVarint | SVarint => WT_VARINT
      case Fixed32 => WT_32BIT
      case Fixed64 => WT_64BIT
      case _ => WT_STRING
    }
  }

  datatype Desc = Desc(fields: seq<Field>)

  /** A field's value. A string is what stands before the terminating zero. */
  datatype Val = Num(i: int) | Blob(b: seq<byte>) | Msg(slots: seq<Slot>)

  /** A field's place in the struct: a value with or without a has-flag (false when there is none), an
      array with as many entries as are in use, or a union with its selector. `word` is what the first four
      bytes of an array's memory are as a number. */
  datatype Slot = Single(has: bool, val: Val) | Many(items: seq<Val>, word: nat) | Chosen(which: nat, val: Val)

  /** The first word of an array is known for numbers of 32 bits and more, and for bytes, which begin with
      their size. */
  predicate WordKnown(f: Field, items: seq<Val>) {
    f.FixedCount() && items != [] &&
    if items[0].Num? then f.Packable() && NumberSize(f) >= 4 else items[0].Blob? && f.ltype.Bytes?
  }

  function NumberSize(f: Field): nat {
    if f.ltype.Fixed32? then 4 else if f.ltype.Fixed64? then 8 else f.dataSize
  }

  /** It is the low 32 bits of the first number, or the first size. Where it is not known, zero stands for it. */
  function FirstWord(f: Field, items: seq<Val>): nat {
    if !WordKnown(f, items) then 0 else if items[0].Num? then items[0].i % TWO32 else |items[0].b|
  }

  /** Two fields in a row share a union. */
  predicate SharesUnion(prev: Field, next: Field) {
    prev.htype.Oneof? && next.htype.Oneof? && next.dataOffset == PB_SIZE_MAX
  }

  /** The slot of field `i`: its own, or that of the first member of its union. */
  function SlotOf(desc: Desc, i: nat): (k: nat)
    requires i < |desc.fields|
    ensures k <= i
  {
    if i > 0 && SharesUnion(desc.fields[i - 1], desc.fields[i]) then SlotOf(desc, i - 1) else i
  }

  // ----- encoding -----

  function Prefixed(bytes: seq<byte>): seq<byte> {
    EncodeVarint(|bytes|) + bytes
  }

  /** `pb_encode_tag`. */
  function EncTag(wireType: nat, tag: nat): seq<byte> {
    EncodeVarint(8 * tag + wireType)
  }

  predicate IntSize(n: nat) {
    n == 1 || n == 2 || n == 4 || n == 8
  }

  /** The field encoders. A value that the struct could not hold has no encoding here. */
  function EncVal(f: Field, v: Val): Option<seq<byte>>
    decreases f, 0
  {
    match (f.ltype, v)
    case (Varint, Num(i)) => if IntSize(f.dataSize) && Int64(i) then Some(EncodeVarint(ToUnsigned64(i))) else None
    case (UVarint, Num(i)) => if IntSize(f.dataSize) && 0 <= i < TWO64 then Some(EncodeVarint(i)) else None
    case (SVarint, Num(i)) => if IntSize(f.dataSize) && Int64(i) then Some(EncodeVarint(ZigZag(i))) else None
    case (Fixed32, Num(i)) => if 0 <= i < TWO32 then Some(LittleEndian(i, 4)) else None
    case (Fixed64, Num(i)) => if 0 <= i < TWO64 then Some(LittleEndian(i, 8)) else None
    case (Bytes, Blob(b)) => if |b| + BYTES_HEADER > f.dataSize then None else Some(Prefixed(b))
    case (String, Blob(b)) => if |b| > f.dataSize then None else Some(Prefixed(b))
    case (FixedBytes, Blob(b)) => if |b| != f.dataSize then None else Some(Prefixed(b))
    case (SubMsg(sub), Msg(slots)) =>
      var e := EncFrom(sub, slots, 0);
      if e.Some? then Some(Prefixed(e.value)) else None
    case _ => None
  }

  /** The entries of a packed array, one after the other. */
  function EncItems(f: Field, items: seq<Val>): Option<seq<byte>>
    decreases f, 1, |items|
  {
    if items == [] then Some([]) else Join(EncVal(f, items[0]), EncItems(f, items[1..]))
  }

  /** The entries of any other array, each with its own tag. */
  function EncTagged(f: Field, items: seq<Val>): Option<seq<byte>>
    decreases f, 1, |items|
  {
    if items == [] then Some([])
    else Join(Join(Some(EncTag(f.WireType(), f.tag)), EncVal(f, items[0])), EncTagged(f, items[1..]))
  }

  /** `encode_array`. */
  function EncArray(f: Field, items: seq<Val>): Option<seq<byte>>
    decreases f, 2
  {
    if items == [] then Some([])
    else if |items| > f.arraySize then None
    else if f.Packable() then
      var e := EncItems(f, items);
      if e.Some? then Some(EncTag(WT_STRING, f.tag) + Prefixed(e.value)) else None
    else EncTagged(f, items)
  }

  /** `pb_check_proto3_default_value`. It takes the first word of an array of fixed count, which has no
      counter, for its count. */
  predicate IsDefault(f: Field, s: Slot)
    decreases f, 0
  {
    match f.htype
    case Required => false
    case Repeated => s.Many? && if f.FixedCount() then s.word == 0 else s.items == []
    case Oneof => s.Chosen? && s.which == 0
    case Optional =>
      if f.sizeOffset != 0 then s.Single? && !s.has
      else
        match f.ltype
        case Bytes => s.Single? && s.val == Blob([])
        case String => s.Single? && s.val == Blob([])
        case FixedBytes => f.dataSize == 0
        case SubMsg(sub) => s.Single? && s.val.Msg? && AllDefault(sub, s.val.slots, 0)
        case _ => s.Single? && s.val == Num(0)
  }

  /** All the fields from `i` on have their default value. */
  predicate AllDefault(desc: Desc, slots: seq<Slot>, i: nat)
    decreases desc, |desc.fields| - i
  {
    i >= |desc.fields| || |slots| != |desc.fields| ||
    (IsDefault(desc.fields[i], slots[SlotOf(desc, i)]) && AllDefault(desc, slots, i + 1))
  }

  /** `encode_basic_field`. */
  function EncField(f: Field, s: Slot): Option<seq<byte>>
    decreases f, 3
  {
    match (f.htype, s)
    case (Required, Single(_, v)) => Join(Some(EncTag(f.WireType(), f.tag)), EncVal(f, v))
    case (Optional, Single(has, v)) =>
      if if f.sizeOffset != 0 then has else !IsDefault(f, s) then Join(Some(EncTag(f.WireType(), f.tag)), EncVal(f, v))
      else Some([])
    case (Repeated, Many(items, _)) => EncArray(f, items)
    case (Oneof, Chosen(which, v)) =>
      if which == f.tag then Join(Some(EncTag(f.WireType(), f.tag)), EncVal(f, v)) else Some([])
    case _ => None
  }

  /** `pb_encode` from field `i` on. */
  function EncFrom(desc: Desc, slots: seq<Slot>, i: nat): Option<seq<byte>>
    decreases desc, |desc.fields| - i
  {
    if |slots| != |desc.fields| then None
    else if i >= |desc.fields| then Some([])
    else Join(EncField(desc.fields[i], slots[SlotOf(desc, i)]), EncFrom(desc, slots, i + 1))
  }

  function EncMsg(desc: Desc, slots: seq<Slot>): Option<seq<byte>> {
    EncFrom(desc, slots, 0)
  }

  // ----- what a struct of the descriptor's type can hold -----

  predicate TypedVal(f: Field, v: Val)
    decreases f, 0
  {
    match f.ltype
    case Varint | SVarint => v.Num? && Int64(v.i)
    case UVarint | Fixed64 => v.Num? && 0 <= v.i < TWO64
    case Fixed32 => v.Num? && 0 <= v.i < TWO32
    case Bytes => v.Blob?
    case String => v.Blob? && |v.b| <= f.dataSize
    case FixedBytes => v.Blob? && |v.b| == f.dataSize
    case SubMsg(sub) => v.Msg? && TypedMsg(sub, v.slots)
  }

  predicate TypedSlot(f: Field, s: Slot)
    decreases f, 1
  {
    match f.htype
    case Required | Optional => s.Single? && TypedVal(f, s.val)
    case Repeated => s.Many? && forall i :: 0 <= i < |s.items| ==> TypedVal(f, s.items[i])
    case Oneof => s.Chosen? && (s.which == f.tag ==> TypedVal(f, s.val))
  }

  predicate TypedMsg(desc: Desc, slots: seq<Slot>)
    decreases desc
  {
    && |slots| == |desc.fields|
    && forall i :: 0 <= i < |desc.fields| ==> TypedSlot(desc.fields[i], slots[SlotOf(desc, i)])
  }
}
