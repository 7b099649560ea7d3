/** nanopb's encoder on streams: each routine emits exactly the encoding of its value, whether the stream
    writes or only counts. */
module PbEncode {
  import opened Bytes
  import opened Wrappers
  import opened PbWire
  import opened PbSchema
  import opened PbStreams
  import opened PbFieldIter

  /** Every descriptor of the tree has a terminator only at its end. */
  predicate DescOk(desc: Desc)
    decreases desc
  {
    TagsNonZero(desc) && forall i :: 0 <= i < |desc.fields| ==> FieldDescOk(desc.fields[i])
  }

  predicate FieldDescOk(f: Field)
    decreases f
  {
    f.ltype.SubMsg? ==> DescOk(f.ltype.desc)
  }

  /** `pb_encode_tag`. */
  method EncodeTag(stream: OStream, wireType: nat, tag: nat) returns (ok: bool)
    requires stream.Valid()
    modifies stream, stream.buffer
    ensures stream.Emitted(ok, Some(EncTag(wireType, tag)))
  {
    ok := stream.EncodeVarint(8 * tag + wireType);
  }

  /** The field encoders, by type. */
  method EncodeVal(stream: OStream, f: Field, v: Val) returns (ok: bool)
    requires stream.Valid() && TypedVal(f, v) && FieldDescOk(f)
    modifies stream, stream.buffer
    ensures stream.Emitted(ok, EncVal(f, v))
    decreases f, 0
  {
    match f.ltype
    case Varint =>
      if !IntSize(f.dataSize) {
        return false;
      }
      ok := stream.EncodeVarint(ToUnsigned64(v.i));
    case UVarint =>
      if !IntSize(f.dataSize) {
        return false;
      }
      ok := stream.EncodeVarint(v.i);
    case SVarint =>
      if !IntSize(f.dataSize) {
        return false;
      }
      ok := stream.EncodeSvarint(v.i);
    case Fixed32 => ok := stream.EncodeFixed(v.i, 4);
    case Fixed64 => ok := stream.EncodeFixed(v.i, 8);
    case Bytes =>
      if |v.b| + BYTES_HEADER > f.dataSize {
        return false;
      }
      ok := stream.EncodeString(v.b);
    case String => ok := stream.EncodeString(v.b);
    case FixedBytes => ok := stream.EncodeString(v.b);
    case SubMsg(sub) => ok := EncodeSubmessage(stream, sub, v.slots);
  }

  /** `pb_encode_submessage`: find out the size on a sizing stream, write it, and encode into a stream that
      has room for exactly that much. The second pass writes what the first one counted. */
  method EncodeSubmessage(stream: OStream, desc: Desc, slots: seq<Slot>) returns (ok: bool)
    requires stream.Valid() && TypedMsg(desc, slots) && DescOk(desc)
    modifies stream, stream.buffer
    ensures stream.Emitted(ok, var e := EncMsg(desc, slots); if e.Some? then Some(Prefixed(e.value)) else None)
    decreases desc, 3
  {
    var sizing := new OStream.Sizing();
    ok := Encode(sizing, desc, slots);
    if !ok {
      return false;
    }
    var size := sizing.bytesWritten;
    ghost var bytes := EncMsg(desc, slots).value;
    ghost var start := stream.Snapshot();
    ok := stream.EncodeVarint(size);
    ghost var middle := stream.Snapshot();
    if !ok {
      EmitsNeither(stream.sizing, stream.maxSize, start, middle, Some(EncodeVarint(size)), Some(bytes));
      return false;
    }
    if stream.sizing {
      stream.bytesWritten := stream.bytesWritten + size;
      return true;
    }
    if stream.bytesWritten + size > stream.maxSize {
      return false;
    }
    var sub := new OStream.FromBuffer(stream.buffer, stream.state, size);
    var status := Encode(sub, desc, slots);
    stream.bytesWritten := stream.bytesWritten + sub.bytesWritten;
    stream.state := sub.state;
    // The "submsg size changed" error cannot happen.
    assert status && sub.bytesWritten == size;
    EmitsBoth(false, stream.maxSize, start, middle, stream.Snapshot(), Some(EncodeVarint(size)), true, Some(bytes));
    return status;
  }

  /** The data loop of `encode_array` for packed arrays. */
  method EncodeItems(stream: OStream, f: Field, items: seq<Val>) returns (ok: bool)
    requires stream.Valid() && FieldDescOk(f)
    requires forall i :: 0 <= i < |items| ==> TypedVal(f, items[i])
    modifies stream, stream.buffer
    ensures stream.Emitted(ok, EncItems(f, items))
    decreases f, 1
  {
    ghost var start, out := stream.Snapshot(), Some([]);
    EmitsNothing(stream.sizing, stream.maxSize, start);
    assert items[0..] == items;
    JoinNothing(EncItems(f, items));
    for i := 0 to |items|
      invariant stream.Valid() && Emits(stream.sizing, stream.maxSize, start, stream.Snapshot(), true, out)
      invariant EncItems(f, items) == Join(out, EncItems(f, items[i..]))
    {
      ghost var middle, rest := stream.Snapshot(), EncItems(f, items[i + 1..]);
      assert items[i..][1..] == items[i + 1..];
      ok := EncodeVal(stream, f, items[i]);
      EmitsBoth(stream.sizing, stream.maxSize, start, middle, stream.Snapshot(), out, ok, EncVal(f, items[i]));
      JoinAssociates(out, EncVal(f, items[i]), rest);
      out := Join(out, EncVal(f, items[i]));
      if !ok {
        EmitsNeither(stream.sizing, stream.maxSize, start, stream.Snapshot(), out, rest);
        return false;
      }
    }
    assert items[|items|..] == [];
    JoinNothing(out);
    ok := true;
  }

  lemma JoinAssociates(a: Option<seq<byte>>, b: Option<seq<byte>>, c: Option<seq<byte>>)
    ensures Join(a, Join(b, c)) == Join(Join(a, b), c)
  {
    if a.Some? && b.Some? && c.Some? {
      assert a.value + (b.value + c.value) == a.value + b.value + c.value;
    }
  }

  lemma JoinNothing(a: Option<seq<byte>>)
    ensures Join(a, Some([])) == a && Join(Some([]), a) == a
  {
    if a.Some? {
      assert a.value + [] == a.value && [] + a.value == a.value;
    }
  }

  /** A tag and a value. */
  method EncodeTagAndVal(stream: OStream, f: Field, v: Val) returns (ok: bool)
    requires stream.Valid() && TypedVal(f, v) && FieldDescOk(f)
    modifies stream, stream.buffer
    ensures stream.Emitted(ok, Join(Some(EncTag(f.WireType(), f.tag)), EncVal(f, v)))
    decreases f, 1
  {
    ghost var start := stream.Snapshot();
    ok := EncodeTag(stream, f.WireType(), f.tag);
    ghost var middle := stream.Snapshot();
    if !ok {
      EmitsNeither(stream.sizing, stream.maxSize, start, middle, Some(EncTag(f.WireType(), f.tag)), EncVal(f, v));
      return false;
    }
    ok := EncodeVal(stream, f, v);
    EmitsBoth(stream.sizing, stream.maxSize, start, middle, stream.Snapshot(),
              Some(EncTag(f.WireType(), f.tag)), ok, EncVal(f, v));
  }

  /** The loop of `encode_array` for arrays that cannot be packed. */
  method EncodeTagged(stream: OStream, f: Field, items: seq<Val>) returns (ok: bool)
    requires stream.Valid() && FieldDescOk(f)
    requires forall i :: 0 <= i < |items| ==> TypedVal(f, items[i])
    modifies stream, stream.buffer
    ensures stream.Emitted(ok, EncTagged(f, items))
    decreases f, 2
  {
    ghost var start, out := stream.Snapshot(), Some([]);
    EmitsNothing(stream.sizing, stream.maxSize, start);
    assert items[0..] == items;
    JoinNothing(EncTagged(f, items));
    for i := 0 to |items|
      invariant stream.Valid() && Emits(stream.sizing, stream.maxSize, start, stream.Snapshot(), true, out)
      invariant EncTagged(f, items) == Join(out, EncTagged(f, items[i..]))
    {
      ghost var middle, rest := stream.Snapshot(), EncTagged(f, items[i + 1..]);
      ghost var one := Join(Some(EncTag(f.WireType(), f.tag)), EncVal(f, items[i]));
      assert items[i..][1..] == items[i + 1..];
      ok := EncodeTagAndVal(stream, f, items[i]);
      EmitsBoth(stream.sizing, stream.maxSize, start, middle, stream.Snapshot(), out, ok, one);
      JoinAssociates(out, one, rest);
      out := Join(out, one);
      if !ok {
        EmitsNeither(stream.sizing, stream.maxSize, start, stream.Snapshot(), out, rest);
        return false;
      }
    }
    assert items[|items|..] == [];
    JoinNothing(out);
    ok := true;
  }

  /** Fixed-width entries need no sizing pass. */
  lemma {:induction false} FixedWidthSize(f: Field, items: seq<Val>)
    requires f.ltype.Fixed32? || f.ltype.Fixed64?
    requires forall i :: 0 <= i < |items| ==> TypedVal(f, items[i])
    ensures EncItems(f, items).Some? && |EncItems(f, items).value| == (if f.ltype.Fixed32? then 4 else 8) * |items|
  {
    if items != [] {
      FixedWidthSize(f, items[1..]);
    }
  }

  /** `encode_array`. The size of a packed array is found out on a sizing stream. */
  method EncodeArray(stream: OStream, f: Field, items: seq<Val>) returns (ok: bool)
    requires stream.Valid() && FieldDescOk(f)
    requires forall i :: 0 <= i < |items| ==> TypedVal(f, items[i])
    modifies stream, stream.buffer
    ensures stream.Emitted(ok, EncArray(f, items))
    decreases f, 5
  {
    ghost var start := stream.Snapshot();
    if items == [] {
      EmitsNothing(stream.sizing, stream.maxSize, start);
      return true;
    }
    if |items| > f.arraySize {
      return false;
    }
    if !f.Packable() {
      ok := EncodeTagged(stream, f, items);
      return;
    }
    ok := EncodePacked(stream, f, items);
  }

  /** How long the packed entries are: counted for fixed-width ones, otherwise found out by a sizing
      pass, which may fail. */
  method PackedSize(f: Field, items: seq<Val>) returns (ok: bool, size: nat)
    requires FieldDescOk(f) && forall i :: 0 <= i < |items| ==> TypedVal(f, items[i])
    ensures ok == EncItems(f, items).Some? && (ok ==> size == |EncItems(f, items).value|)
    decreases f, 2
  {
    if f.ltype.Fixed32? {
      FixedWidthSize(f, items);
      return true, 4 * |items|;
    }
    if f.ltype.Fixed64? {
      FixedWidthSize(f, items);
      return true, 8 * |items|;
    }
    var sizing := new OStream.Sizing();
    ok := EncodeItems(sizing, f, items);
    size := sizing.bytesWritten;
  }

  method EncodePacked(stream: OStream, f: Field, items: seq<Val>) returns (ok: bool)
    requires stream.Valid() && FieldDescOk(f)
    requires forall i :: 0 <= i < |items| ==> TypedVal(f, items[i])
    modifies stream, stream.buffer
    ensures stream.Emitted(ok, var e := EncItems(f, items);
                               if e.Some? then Some(EncTag(WT_STRING, f.tag) + Prefixed(e.value)) else None)
    decreases f, 4
  {
    ghost var start := stream.Snapshot();
    ghost var tag := Some(EncTag(WT_STRING, f.tag));
    ghost var body := var e := EncItems(f, items); if e.Some? then Some(Prefixed(e.value)) else None;
    ok := EncodeTag(stream, WT_STRING, f.tag);
    ghost var middle := stream.Snapshot();
    if !ok {
      EmitsNeither(stream.sizing, stream.maxSize, start, middle, tag, body);
      return false;
    }
    ok := EncodePackedBody(stream, f, items);
    EmitsBoth(stream.sizing, stream.maxSize, start, middle, stream.Snapshot(), tag, ok, body);
  }

  method EncodePackedBody(stream: OStream, f: Field, items: seq<Val>) returns (ok: bool)
    requires stream.Valid() && FieldDescOk(f)
    requires forall i :: 0 <= i < |items| ==> TypedVal(f, items[i])
    modifies stream, stream.buffer
    ensures stream.Emitted(ok, var e := EncItems(f, items); if e.Some? then Some(Prefixed(e.value)) else None)
    decreases f, 3
  {
    var size;
    ok, size := PackedSize(f, items);
    if !ok {
      return false;
    }
    ghost var start := stream.Snapshot();
    ghost var length := Some(EncodeVarint(size));
    ok := stream.EncodeVarint(size);
    ghost var middle := stream.Snapshot();
    if !ok {
      EmitsNeither(stream.sizing, stream.maxSize, start, middle, length, EncItems(f, items));
      return false;
    }
    if stream.sizing {
      stream.bytesWritten := stream.bytesWritten + size;
      return true;
    }
    ok := EncodeItems(stream, f, items);
    EmitsBoth(stream.sizing, stream.maxSize, start, middle, stream.Snapshot(), length, ok, EncItems(f, items));
  }

  /** `encode_basic_field`. */
  method EncodeField(stream: OStream, f: Field, s: Slot) returns (ok: bool)
    requires stream.Valid() && FieldDescOk(f) && TypedSlot(f, s)
    modifies stream, stream.buffer
    ensures stream.Emitted(ok, EncField(f, s))
    decreases f, 6
  {
    EmitsNothing(stream.sizing, stream.maxSize, stream.Snapshot());
    match f.htype
    case Required => ok := EncodeTagAndVal(stream, f, s.val);
    case Optional =>
      var has := if f.sizeOffset != 0 then s.has else !IsDefault(f, s);
      if !has {
        return true;
      }
      ok := EncodeTagAndVal(stream, f, s.val);
    case Repeated => ok := EncodeArray(stream, f, s.items);
    case Oneof =>
      if s.which != f.tag {
        return true;
      }
      ok := EncodeTagAndVal(stream, f, s.val);
  }

  /** One turn of `pb_encode`: field `i`, behind those whose encoding is `out`. */
  method EncodeNext(stream: OStream, desc: Desc, slots: seq<Slot>, i: nat, slot: nat, ghost start: Image,
      ghost out: Option<seq<byte>>)
    returns (ok: bool, ghost out': Option<seq<byte>>)
    requires stream.Valid() && TypedMsg(desc, slots) && DescOk(desc) && i < |desc.fields| && slot == SlotOf(desc, i)
    requires Emits(stream.sizing, stream.maxSize, start, stream.Snapshot(), true, out)
    modifies stream, stream.buffer
    ensures stream.Valid()
    ensures Emits(stream.sizing, stream.maxSize, start, stream.Snapshot(), ok,
                  if ok then out' else Join(out, EncFrom(desc, slots, i)))
    ensures ok ==> Join(out, EncFrom(desc, slots, i)) == Join(out', EncFrom(desc, slots, i + 1))
    decreases desc, 1
  {
    ghost var middle := stream.Snapshot();
    ghost var one, rest := EncField(desc.fields[i], slots[slot]), EncFrom(desc, slots, i + 1);
    ok := EncodeField(stream, desc.fields[i], slots[slot]);
    EmitsBoth(stream.sizing, stream.maxSize, start, middle, stream.Snapshot(), out, ok, one);
    JoinAssociates(out, one, rest);
    out' := Join(out, one);
    if !ok {
      EmitsNeither(stream.sizing, stream.maxSize, start, stream.Snapshot(), out', rest);
    }
  }

  /** `pb_encode`. */
  method Encode(stream: OStream, desc: Desc, slots: seq<Slot>) returns (ok: bool)
    requires stream.Valid() && TypedMsg(desc, slots) && DescOk(desc)
    modifies stream, stream.buffer
    ensures stream.Emitted(ok, EncMsg(desc, slots))
    decreases desc, 2
  {
    ghost var start, out := stream.Snapshot(), Some([]);
    EmitsNothing(stream.sizing, stream.maxSize, start);
    JoinNothing(EncFrom(desc, slots, 0));
    var iter := new FieldIter.Begin(desc);
    if desc.fields == [] {
      return true;
    }
    var more := true;
    while more
      invariant stream.Valid() && iter.Valid() && iter.desc == desc && fresh(iter)
      invariant Emits(stream.sizing, stream.maxSize, start, stream.Snapshot(), true, out)
      invariant EncMsg(desc, slots) == Join(out, if more then EncFrom(desc, slots, iter.pos) else Some([]))
      decreases if more then |desc.fields| - iter.pos else 0
    {
      ok, out := EncodeNext(stream, desc, slots, iter.pos, iter.slot, start, out);
      if !ok {
        return;
      }
      more := iter.Next();
    }
    JoinNothing(out);
    ok := true;
  }

  /** `pb_get_encoded_size`. */
  method GetEncodedSize(desc: Desc, slots: seq<Slot>) returns (ok: bool, size: nat)
    requires TypedMsg(desc, slots) && DescOk(desc)
    ensures ok == EncMsg(desc, slots).Some? && (ok ==> size == |EncMsg(desc, slots).value|)
  {
    var stream := new OStream.Sizing();
    ok := Encode(stream, desc, slots);
    size := stream.bytesWritten;
  }

  /** Encoding into a buffer succeeds exactly if sizing does and the size fits, and then fills exactly
      that much of the buffer with the encoding. */
  method EncodeToBuffer(buffer: array<byte>, desc: Desc, slots: seq<Slot>) returns (ok: bool, length: nat)
    requires TypedMsg(desc, slots) && DescOk(desc)
    modifies buffer
    ensures ok == (EncMsg(desc, slots).Some? && |EncMsg(desc, slots).value| <= buffer.Length)
    ensures ok ==> length == |EncMsg(desc, slots).value| && buffer[..length] == EncMsg(desc, slots).value
    ensures ok ==> buffer[length..] == old(buffer[length..])
  {
    var stream := new OStream.FromBuffer(buffer, 0, buffer.Length);
    ok := Encode(stream, desc, slots);
    length := stream.bytesWritten;
  }
}
