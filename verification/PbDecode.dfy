/** nanopb's decoder: streams, the field iterator and the bitset of required fields, doing what
    `PbDecodeSpec` says. The destination struct is handed in and out as a value. */
module PbDecode {
  import opened Words
  import opened Bytes
  import opened Wrappers
  import opened PbWire
  import opened PbStreams
  import opened PbSchema
  import opened PbFieldIter
  import opened PbDecodeSpec
  import opened PbRequired

  /** A tag determines its field, here and in all submessages. */
  predicate Searchable(desc: Desc)
    decreases desc
  {
    && TagsNonZero(desc) && TagsDistinct(desc)
    && forall i :: 0 <= i < |desc.fields| ==> FieldSearchable(desc.fields[i])
  }

  predicate FieldSearchable(f: Field)
    decreases f
  {
    f.ltype.SubMsg? ==> Searchable(f.ltype.desc)
  }

  /** A call did what the specification says: failed with it, or left the same value and input. */
  ghost predicate Does<T>(ok: bool, value: T, rest: seq<byte>, spec: Option<Got<T>>) {
    ok == spec.Some? && (ok ==> spec.value == Got(value, rest))
  }

  // ----- integers -----

  /** A cast to a signed type of so many bytes. */
  function Cast(size: nat, i: int): int {
    if size == 8 then (i + TWO63) % TWO64 - TWO63
    else if size == 4 then (i + TWO31) % TWO32 - TWO31
    else if size == 2 then (i + 0x8000) % 0x1_0000 - 0x8000
    else (i + 0x80) % 0x100 - 0x80
  }

  lemma CastKeeps(size: nat, i: int)
    requires IntSize(size)
    ensures Cast(size, i) == i <==> InRange(size, i)
  {
  }

  /** A field of up to 32 bits is first cast to 32 bits. */
  lemma SignedCasts(f: Field, v: nat)
    requires v < TWO64 && IntSize(f.dataSize)
    ensures var wide := Cast(if f.dataSize == 8 then 8 else 4, v);
            DecSigned(f, v) == if Cast(f.dataSize, wide) == wide then Some(Num(wide)) else None
  {
    if f.dataSize == 8 {
      CastOfWide(v);
    } else {
      CastOfLow(v);
      CastKeeps(f.dataSize, Cast(4, v));
    }
  }

  lemma CastOfWide(v: nat)
    requires v < TWO64
    ensures Cast(8, v) == ToSigned64(v) && Cast(8, ToSigned64(v)) == ToSigned64(v)
  {
  }

  lemma CastOfLow(v: nat)
    ensures Cast(4, v) == if v % TWO32 < TWO31 then v % TWO32 else v % TWO32 - TWO32
  {
  }

  lemma CastUnsignedKeeps(size: nat, v: nat)
    requires IntSize(size)
    ensures CastUnsigned(size, v) == v <==> InRangeUnsigned(size, v)
  {
  }

  function CastUnsigned(size: nat, v: nat): nat {
    if size == 8 then v % TWO64 else if size == 4 then v % TWO32 else if size == 2 then v % 0x1_0000 else v % 0x100
  }

  /** `pb_dec_varint`. */
  method DecodeSigned(stream: IStream, f: Field) returns (ok: bool, v: Val)
    requires stream.Valid() && f.ltype.Varint?
    modifies stream
    ensures stream.Valid() && stream.End() == old(stream.End())
    ensures Does(ok, v, stream.Rest(), DecInteger(f, old(stream.Rest())))
  {
    v := Num(0);
    ghost var word := ReadWord(stream.Rest());
    var value;
    ok, value := stream.DecodeVarint();
    if !ok {
      return;
    }
    var svalue := Cast(if f.dataSize == 8 then 8 else 4, value);
    if !IntSize(f.dataSize) {
      return false, v;
    }
    SignedCasts(f, value);
    var clamped := Cast(f.dataSize, svalue);
    return clamped == svalue, Num(clamped);
  }

  /** `pb_dec_uvarint`. */
  method DecodeUnsigned(stream: IStream, f: Field) returns (ok: bool, v: Val)
    requires stream.Valid() && f.ltype.UVarint?
    modifies stream
    ensures stream.Valid() && stream.End() == old(stream.End())
    ensures Does(ok, v, stream.Rest(), DecInteger(f, old(stream.Rest())))
  {
    v := Num(0);
    ghost var word := ReadWord(stream.Rest());
    var value;
    ok, value := stream.DecodeVarint();
    if !ok || !IntSize(f.dataSize) {
      return false, v;
    }
    CastUnsignedKeeps(f.dataSize, value);
    var clamped := CastUnsigned(f.dataSize, value);
    return clamped == value, Num(clamped);
  }

  /** `pb_dec_svarint`. */
  method DecodeZigZag(stream: IStream, f: Field) returns (ok: bool, v: Val)
    requires stream.Valid() && f.ltype.SVarint?
    modifies stream
    ensures stream.Valid() && stream.End() == old(stream.End())
    ensures Does(ok, v, stream.Rest(), DecInteger(f, old(stream.Rest())))
  {
    v := Num(0);
    ghost var word := ReadWord(stream.Rest());
    var value;
    ok, value := stream.DecodeVarint();
    if !ok || !IntSize(f.dataSize) {
      return false, v;
    }
    var svalue: int := value / 2;
    if value % 2 == 1 {
      svalue := -svalue - 1;
    }
    CastKeeps(f.dataSize, svalue);
    var clamped := Cast(f.dataSize, svalue);
    return clamped == svalue, Num(clamped);
  }

  /** `pb_dec_fixed32` and `pb_dec_fixed64`. */
  method DecodeFixed(stream: IStream, f: Field) returns (ok: bool, v: Val)
    requires stream.Valid() && (f.ltype.Fixed32? || f.ltype.Fixed64?)
    modifies stream
    ensures stream.Valid() && stream.End() == old(stream.End())
    ensures Does(ok, v, stream.Rest(), DecFixed(old(stream.Rest()), if f.ltype.Fixed32? then 4 else 8))
  {
    var bytes;
    ok, bytes := stream.Read(if f.ltype.Fixed32? then 4 else 8);
    v := Num(FromLittleEndian(bytes));
  }

  // ----- bytes -----

  /** `pb_dec_bytes`. */
  method DecodeBytes(stream: IStream, f: Field) returns (ok: bool, v: Val)
    requires stream.Valid() && f.ltype.Bytes?
    modifies stream
    ensures stream.Valid() && stream.End() == old(stream.End())
    ensures Does(ok, v, stream.Rest(), DecBlob(f, old(stream.Rest())))
  {
    v := Blob([]);
    var size, eof, bytes;
    ok, size, eof := stream.DecodeVarint32();
    if !ok || size + BYTES_HEADER > f.dataSize {
      return false, v;
    }
    ok, bytes := stream.Read(size);
    v := Blob(bytes);
  }

  /** `pb_dec_string`. */
  method DecodeString(stream: IStream, f: Field) returns (ok: bool, v: Val)
    requires stream.Valid() && f.ltype.String?
    modifies stream
    ensures stream.Valid() && stream.End() == old(stream.End())
    ensures Does(ok, v, stream.Rest(), DecBlob(f, old(stream.Rest())))
  {
    v := Blob([]);
    var size, eof, bytes;
    ok, size, eof := stream.DecodeVarint32();
    if !ok || size + 1 > f.dataSize {
      return false, v;
    }
    ok, bytes := stream.Read(size);
    v := Blob(UpToNul(bytes));
  }

  /** `pb_dec_fixed_length_bytes`. */
  method DecodeFixedBytes(stream: IStream, f: Field) returns (ok: bool, v: Val)
    requires stream.Valid() && f.ltype.FixedBytes?
    modifies stream
    ensures stream.Valid() && stream.End() == old(stream.End())
    ensures Does(ok, v, stream.Rest(), DecBlob(f, old(stream.Rest())))
  {
    v := Blob([]);
    var size, eof, bytes;
    ok, size, eof := stream.DecodeVarint32();
    if !ok {
      return;
    }
    if size == 0 {
      return true, Blob(Zeros(f.dataSize));
    }
    if size != f.dataSize {
      return false, v;
    }
    ok, bytes := stream.Read(f.dataSize);
    v := Blob(bytes);
  }

  /** `pb_dec_submessage`. */
  method DecodeSubmessage(stream: IStream, f: Field, was: Val) returns (ok: bool, v: Val)
    requires stream.Valid() && f.ltype.SubMsg? && Searchable(f.ltype.desc)
    modifies stream
    ensures stream.Valid() && stream.End() == old(stream.End())
    ensures Does(ok, v, stream.Rest(), DecSubMsg(f, f.ltype.desc, old(stream.Rest()), was))
    decreases stream.bytesLeft, 0
  {
    ghost var prefixed := ReadPrefixed(stream.Rest());
    var made, sub := stream.MakeSubstream();
    if !made {
      return false, was;
    }
    assert prefixed.Some? && prefixed.value.value == sub.Rest();
    var slots;
    if f.htype.Repeated? || !was.Msg? {
      ok, slots := Decode(sub, f.ltype.desc);
    } else {
      ok, slots := DecodeNoinit(sub, f.ltype.desc, was.slots);
    }
    stream.CloseSubstream(sub);
    v := Msg(slots);
    assert stream.Rest() == prefixed.value.rest;
  }

  /** The field decoders, `PB_DECODERS`. */
  method DecodeVal(stream: IStream, f: Field, was: Val) returns (ok: bool, v: Val)
    requires stream.Valid() && FieldSearchable(f)
    modifies stream
    ensures stream.Valid() && stream.End() == old(stream.End())
    ensures Does(ok, v, stream.Rest(), DecVal(f, old(stream.Rest()), was))
    decreases stream.bytesLeft, 1
  {
    match f.ltype
    case Varint => ok, v := DecodeSigned(stream, f);
    case UVarint => ok, v := DecodeUnsigned(stream, f);
    case SVarint => ok, v := DecodeZigZag(stream, f);
    case Fixed32 => ok, v := DecodeFixed(stream, f);
    case Fixed64 => ok, v := DecodeFixed(stream, f);
    case Bytes => ok, v := DecodeBytes(stream, f);
    case String => ok, v := DecodeString(stream, f);
    case FixedBytes => ok, v := DecodeFixedBytes(stream, f);
    case SubMsg(_) => ok, v := DecodeSubmessage(stream, f, was);
  }

  // ----- fields -----

  /** One entry of a packed array. `goal` is what the whole array comes to. */
  method DecodeEntry(sub: IStream, f: Field, a: Array, ghost goal: Option<Array>) returns (ok: bool, next: Array)
    requires sub.Valid() && FieldSearchable(f) && sub.bytesLeft > 0 && a.count < f.arraySize
    requires DecPacked(f, sub.Rest(), a) == goal
    modifies sub
    ensures sub.Valid() && sub.End() == old(sub.End())
    ensures if ok then DecPacked(f, sub.Rest(), next) == goal && sub.bytesLeft < old(sub.bytesLeft) else goal.None?
    decreases sub.bytesLeft, 2
  {
    var v;
    ok, v := DecodeVal(sub, f, OldItem(f, a.items, a.count));
    next := Array(PutItem(f, a.items, a.count, v), a.count + 1);
  }

  /** The packed form of an array, read from a substream. */
  method DecodePacked(sub: IStream, f: Field, a: Array) returns (ok: bool, result: Array)
    requires sub.Valid() && FieldSearchable(f)
    modifies sub
    ensures sub.Valid() && sub.End() == old(sub.End())
    ensures ok == DecPacked(f, old(sub.Rest()), a).Some? && (ok ==> result == DecPacked(f, old(sub.Rest()), a).value)
    decreases sub.bytesLeft, 3
  {
    result := a;
    ghost var goal := DecPacked(f, sub.Rest(), a);
    while sub.bytesLeft > 0 && result.count < f.arraySize
      invariant sub.Valid() && sub.End() == old(sub.End()) && sub.bytesLeft <= old(sub.bytesLeft)
      invariant DecPacked(f, sub.Rest(), result) == goal
      decreases sub.bytesLeft
    {
      ok, result := DecodeEntry(sub, f, result, goal);
      if !ok {
        return;
      }
    }
    ok := sub.bytesLeft == 0;
  }

  /** The packed case of `decode_static_field`. */
  method DecodePackedField(stream: IStream, f: Field, a: Array) returns (ok: bool, result: Array)
    requires stream.Valid() && FieldSearchable(f) && f.Packable()
    modifies stream
    ensures stream.Valid() && stream.End() == old(stream.End())
    ensures Does(ok, result, stream.Rest(), DecPackedField(f, old(stream.Rest()), a))
    decreases stream.bytesLeft, 4
  {
    ghost var prefixed := ReadPrefixed(stream.Rest());
    var made, sub := stream.MakeSubstream();
    if !made {
      return false, a;
    }
    assert prefixed.Some? && prefixed.value.value == sub.Rest();
    ok, result := DecodePacked(sub, f, a);
    stream.CloseSubstream(sub);
    assert stream.Rest() == prefixed.value.rest;
  }

  /** A single entry, in the repeated case of `decode_static_field`. */
  method DecodeEntryField(stream: IStream, f: Field, a: Array) returns (ok: bool, result: Array)
    requires stream.Valid() && FieldSearchable(f)
    modifies stream
    ensures stream.Valid() && stream.End() == old(stream.End())
    ensures Does(ok, result, stream.Rest(), DecEntryField(f, old(stream.Rest()), a))
    decreases stream.bytesLeft, 4
  {
    if a.count >= f.arraySize {
      return false, a;
    }
    var v;
    ok, v := DecodeVal(stream, f, OldItem(f, a.items, a.count));
    result := Array(PutItem(f, a.items, a.count, v), a.count + 1);
  }

  /** The repeated case of `decode_static_field`. */
  method DecodeRepeated(stream: IStream, f: Field, wireType: nat, a: Array) returns (ok: bool, result: Array)
    requires stream.Valid() && FieldSearchable(f)
    modifies stream
    ensures stream.Valid() && stream.End() == old(stream.End())
    ensures Does(ok, result, stream.Rest(), DecRepeated(f, wireType, old(stream.Rest()), a))
    decreases stream.bytesLeft, 5
  {
    if wireType == WT_STRING && f.Packable() {
      ok, result := DecodePackedField(stream, f, a);
    } else {
      ok, result := DecodeEntryField(stream, f, a);
    }
  }

  /** `decode_static_field`, for the memory of one slot. */
  method DecodeStatic(stream: IStream, f: Field, wireType: nat, slot: Slot, count: nat)
    returns (ok: bool, result: Placed)
    requires stream.Valid() && FieldSearchable(f)
    modifies stream
    ensures stream.Valid() && stream.End() == old(stream.End())
    ensures Does(ok, result, stream.Rest(), DecStatic(f, wireType, old(stream.Rest()), slot, count))
    decreases stream.bytesLeft, 6
  {
    result := Placed(slot, count);
    if !Shape(f, slot) {
      return false, result;
    }
    var v, a;
    match f.htype {
      case Required =>
        ok, v := DecodeVal(stream, f, slot.val);
        result := Placed(Single(slot.has, v), count);
      case Optional =>
        var has := slot.has || f.sizeOffset != 0;
        ok, v := DecodeVal(stream, f, slot.val);
        result := Placed(Single(has, v), count);
      case Oneof =>
        v := Num(0);
        if f.ltype.SubMsg? {
          v := Msg(Defaults(f.ltype.desc));
        }
        ok, v := DecodeVal(stream, f, v);
        result := Placed(Chosen(f.tag, v), count);
      case Repeated =>
        ok, a := DecodeRepeated(stream, f, wireType, Array(slot.items, if f.FixedCount() then count else |slot.items|));
        result := Placed(Listed(f, a.items), if f.FixedCount() then a.count else count);
    }
  }

  // ----- tags and unknown fields -----

  /** `pb_decode_tag`. `zero` is the "eof" that a zero byte stands for. */
  method DecodeTag(stream: IStream) returns (ok: bool, tag: nat, wireType: nat, zero: bool)
    requires stream.Valid()
    modifies stream
    ensures stream.Valid() && stream.End() == old(stream.End())
    ensures old(stream.Rest()) != [] ==>
              match ReadTag(old(stream.Rest()))
              case NoTag => !ok && !zero
              case ZeroTag(rest) => !ok && zero && stream.Rest() == rest
              case FieldTag(t, w, rest) => ok && tag == t && wireType == w && stream.Rest() == rest
  {
    var temp, eof;
    ok, temp, eof := stream.DecodeVarint32();
    if !ok {
      return false, 0, 0, eof;
    }
    if temp == 0 {
      return false, 0, 0, true;
    }
    return true, temp / 8, temp % 8, false;
  }

  /** `pb_skip_varint`. */
  method SkipVarintOf(stream: IStream) returns (ok: bool)
    requires stream.Valid()
    modifies stream
    ensures stream.Valid() && stream.End() == old(stream.End())
    ensures ok == SkipVarint(old(stream.Rest())).Some? && (ok ==> stream.Rest() == SkipVarint(old(stream.Rest())).value)
  {
    while true
      invariant stream.Valid() && stream.End() == old(stream.End())
      invariant SkipVarint(stream.Rest()) == SkipVarint(old(stream.Rest()))
      decreases stream.bytesLeft
    {
      var read, bytes := stream.Read(1);
      if !read {
        return false;
      }
      if bytes[0] < 128 {
        return true;
      }
    }
  }

  /** `pb_skip_field`. */
  method SkipFieldOf(stream: IStream, wireType: nat) returns (ok: bool)
    requires stream.Valid()
    modifies stream
    ensures stream.Valid() && stream.End() == old(stream.End())
    ensures ok == SkipField(wireType, old(stream.Rest())).Some?
    ensures ok ==> stream.Rest() == SkipField(wireType, old(stream.Rest())).value
  {
    var size, eof, bytes;
    if wireType == WT_VARINT {
      ok := SkipVarintOf(stream);
    } else if wireType == WT_64BIT {
      ok, bytes := stream.Read(8);
    } else if wireType == WT_STRING {
      ok, size, eof := stream.DecodeVarint32();
      if !ok {
        return;
      }
      ok, bytes := stream.Read(size);
    } else if wireType == WT_32BIT {
      ok, bytes := stream.Read(4);
    } else {
      ok := false;
    }
  }

  // ----- messages -----

  /** `pb_message_set_to_defaults`. */
  method SetToDefaults(desc: Desc) returns (slots: seq<Slot>)
    requires TagsNonZero(desc)
    ensures slots == Defaults(desc)
  {
    slots := [];
    if desc.fields == [] {
      return;
    }
    var iter := new FieldIter.Begin(desc);
    var more := true;
    while more
      invariant iter.Valid() && iter.desc == desc && fresh(iter)
      invariant more ==> iter.pos == |slots| < |desc.fields|
      invariant !more ==> |slots| == |desc.fields|
      invariant slots == Defaults(desc)[..|slots|]
      decreases |desc.fields| - |slots|
    {
      slots := slots + [DefaultSlot(desc.fields[iter.pos])];
      more := iter.Next();
    }
  }

  /** The bookkeeping for a known field: which fixed-count array is being filled, which required fields
      have been seen. */
  method NoteField(iter: FieldIter, fieldsSeen: array<nat>, ghost seen: set<nat>, fixedField: Option<nat>,
      fixedCount: nat)
    returns (ok: bool, fixedField': Option<nat>, fixedCount': nat, ghost seen': set<nat>)
    requires iter.Valid() && iter.pos < |iter.desc.fields|
    requires Represents(fieldsSeen[..], seen) && (fixedField.Some? ==> fixedField.value < |iter.desc.fields|)
    modifies fieldsSeen
    ensures Represents(fieldsSeen[..], seen')
    ensures forall slots ::
              var noted := Noted(iter.desc, iter.pos, State(slots, fixedField, fixedCount, seen));
              ok == noted.Some? && (ok ==> noted.value == State(slots, fixedField', fixedCount', seen'))
    ensures ok && fixedField'.Some? ==> fixedField'.value < |iter.desc.fields|
  {
    fixedField', fixedCount', seen' := fixedField, fixedCount, seen;
    var f := iter.desc.fields[iter.pos];
    if f.FixedCount() && fixedField != Some(iter.pos) {
      if fixedField.Some? && fixedCount != iter.desc.fields[fixedField.value].arraySize {
        return false, fixedField, fixedCount, seen;
      }
      fixedField', fixedCount' := Some(iter.pos), 0;
    }
    if f.htype.Required? && iter.requiredFieldIndex < MAX_REQUIRED_FIELDS {
      var n := iter.requiredFieldIndex;
      SeeField(fieldsSeen[..], seen, n);
      seen' := seen + {n};
      ghost var words := fieldsSeen[..];
      fieldsSeen[n / 32] := Or(fieldsSeen[n / 32], Pow2(n % 32));
      assert fieldsSeen[..] == words[n / 32 := Or(words[n / 32], Pow2(n % 32))];
    }
    ok := true;
  }

  /** The check for required fields: the iterator goes on to the end of the descriptor to count them. */
  method CheckRequired(iter: FieldIter, fieldsSeen: array<nat>, ghost seen: set<nat>) returns (ok: bool)
    requires iter.Valid() && Represents(fieldsSeen[..], seen)
    requires forall k :: k in seen ==> k < ReqIndex(iter.desc, |iter.desc.fields|)
    modifies iter
    ensures ok == RequiredSeen(iter.desc, seen)
  {
    var desc := iter.desc;
    if desc.fields == [] {
      return true;
    }
    var count, lastType, more := 0, desc.fields[iter.pos].htype, true;
    while more
      invariant iter.Valid()
      invariant !more ==> count == ReqIndex(desc, |desc.fields| - 1) && lastType == desc.fields[|desc.fields| - 1].htype
      decreases more, |desc.fields| - iter.pos
    {
      count, lastType := iter.requiredFieldIndex, desc.fields[iter.pos].htype;
      more := iter.Next();
    }
    if lastType.Required? {
      count := count + 1;
    }
    if count > MAX_REQUIRED_FIELDS {
      count := MAX_REQUIRED_FIELDS;
    }
    CountedIsSeen(desc, seen, ReqIndex(desc, |desc.fields|), count);
    ok := AllSeen(fieldsSeen, seen, count);
  }

  /** Only numbers of required fields are ever noted. */
  predicate SeenBelow(desc: Desc, seen: set<nat>) {
    forall k :: k in seen ==> k < ReqIndex(desc, |desc.fields|)
  }

  lemma NotedBelow(desc: Desc, i: nat, st: State)
    requires i < |desc.fields| && SeenBelow(desc, st.seen) && Noted(desc, i, st).Some?
    ensures SeenBelow(desc, Noted(desc, i, st).value.seen)
  {
    ReqIndexMonotone(desc, i, |desc.fields|);
  }

  /** The field the iterator has found. */
  method DecodeField(
    stream: IStream, iter: FieldIter, wireType: nat,
    slots: seq<Slot>, fixedField: Option<nat>, fixedCount: nat, fieldsSeen: array<nat>, ghost seen: set<nat>)
    returns (ok: bool, slots': seq<Slot>, fixedField': Option<nat>, fixedCount': nat, ghost seen': set<nat>)
    requires stream.Valid() && iter.Valid() && iter.pos < |iter.desc.fields| && Searchable(iter.desc)
    requires Represents(fieldsSeen[..], seen) && SeenBelow(iter.desc, seen)
    requires fixedField.Some? ==> fixedField.value < |iter.desc.fields|
    modifies stream, fieldsSeen
    ensures stream.Valid() && stream.End() == old(stream.End())
    ensures Does(ok, State(slots', fixedField', fixedCount', seen'), stream.Rest(),
                 DecField(iter.desc, iter.pos, wireType, old(stream.Rest()),
                   State(slots, fixedField, fixedCount, seen)))
    ensures ok ==> Represents(fieldsSeen[..], seen') && SeenBelow(iter.desc, seen')
    ensures ok && fixedField'.Some? ==> fixedField'.value < |iter.desc.fields|
    decreases stream.bytesLeft, 7
  {
    slots' := slots;
    ghost var st := State(slots, fixedField, fixedCount, seen);
    ok, fixedField', fixedCount', seen' := NoteField(iter, fieldsSeen, seen, fixedField, fixedCount);
    if !ok || |slots| != |iter.desc.fields| {
      return false, slots, fixedField, fixedCount, seen';
    }
    NotedBelow(iter.desc, iter.pos, st);
    assert FieldSearchable(iter.desc.fields[iter.pos]);
    var placed;
    ok, placed := DecodeStatic(stream, iter.desc.fields[iter.pos], wireType, slots[iter.slot], fixedCount');
    slots', fixedCount' := slots[iter.slot := placed.slot], placed.count;
  }

  datatype Status = Fail | Stop | GoOn

  /** A turn of the loop ended as specified, and left the specified state and input. */
  ghost predicate DoesTurn(status: Status, st: State, rest: seq<byte>, spec: Turn) {
    match spec
    case Refused => status.Fail?
    case Stopped(rest') => status.Stop? && rest == rest'
    case Took(st', rest') => status.GoOn? && st == st' && rest == rest'
  }

  /** The body of the loop of `pb_decode_noinit`. */
  method DecodeTurn(
    stream: IStream, iter: FieldIter, slots: seq<Slot>, fixedField: Option<nat>, fixedCount: nat,
      fieldsSeen: array<nat>, ghost seen: set<nat>)
    returns (status: Status, slots': seq<Slot>, fixedField': Option<nat>, fixedCount': nat, ghost seen': set<nat>)
    requires stream.Valid() && stream.bytesLeft > 0 && iter.Valid() && Searchable(iter.desc)
    requires Represents(fieldsSeen[..], seen) && SeenBelow(iter.desc, seen)
    requires fixedField.Some? ==> fixedField.value < |iter.desc.fields|
    modifies stream, iter, fieldsSeen
    ensures stream.Valid() && stream.End() == old(stream.End()) && iter.Valid()
    ensures DoesTurn(status, State(slots', fixedField', fixedCount', seen'), stream.Rest(),
                     DecTurn(iter.desc, old(stream.Rest()), State(slots, fixedField, fixedCount, seen)))
    ensures status.Stop? ==> slots' == slots && fixedField' == fixedField && fixedCount' == fixedCount && seen' == seen
    ensures !status.Fail? ==> Represents(fieldsSeen[..], seen') && SeenBelow(iter.desc, seen')
    ensures !status.Fail? && fixedField'.Some? ==> fixedField'.value < |iter.desc.fields|
    decreases stream.bytesLeft, 7
  {
    slots', fixedField', fixedCount', seen' := slots, fixedField, fixedCount, seen;
    ghost var st := State(slots, fixedField, fixedCount, seen);
    ghost var t := ReadTag(stream.Rest());
    var ok, tag, wireType, zero := DecodeTag(stream);
    if !ok {
      status := if zero then Stop else Fail;
      return;
    }
    assert t == FieldTag(tag, wireType, stream.Rest());
    var found := iter.Find(tag);
    assert iter.desc.fields != [] ==> (found <==> FindFrom(iter.desc, tag, 0).Some?);
    if !found {
      ok := SkipFieldOf(stream, wireType);
    } else if iter.desc.fields == [] {
      ok := false;
    } else {
      FirstMatch(iter.desc, iter.pos, 0);
      ok, slots', fixedField', fixedCount', seen' :=
        DecodeField(stream, iter, wireType, slots, fixedField, fixedCount, fieldsSeen, seen);
    }
    status := if ok then GoOn else Fail;
  }

  /** The loop of `pb_decode_noinit`. */
  method DecodeFields(stream: IStream, iter: FieldIter, dest: seq<Slot>, fieldsSeen: array<nat>)
    returns (ok: bool, slots: seq<Slot>, fixedField: Option<nat>, fixedCount: nat, ghost seen: set<nat>)
    requires stream.Valid() && iter.Valid() && Searchable(iter.desc) && Represents(fieldsSeen[..], {})
    modifies stream, iter, fieldsSeen
    ensures stream.Valid() && stream.End() == old(stream.End()) && iter.Valid()
    ensures var l := DecLoop(iter.desc, old(stream.Rest()), Start(dest));
            && ok == l.Some?
            && (ok ==> l.value.state == State(slots, fixedField, fixedCount, seen) && l.value.rest == stream.Rest())
    ensures ok ==> Represents(fieldsSeen[..], seen) && SeenBelow(iter.desc, seen)
    ensures ok && fixedField.Some? ==> fixedField.value < |iter.desc.fields|
    decreases stream.bytesLeft, 8
  {
    slots, fixedField, fixedCount, seen := dest, None, 0, {};
    ghost var goal := DecLoop(iter.desc, stream.Rest(), Start(dest));
    while stream.bytesLeft > 0
      invariant stream.Valid() && stream.End() == old(stream.End()) && stream.bytesLeft <= old(stream.bytesLeft)
      invariant iter.Valid()
      invariant Represents(fieldsSeen[..], seen) && SeenBelow(iter.desc, seen)
      invariant fixedField.Some? ==> fixedField.value < |iter.desc.fields|
      invariant DecLoop(iter.desc, stream.Rest(), State(slots, fixedField, fixedCount, seen)) == goal
      decreases stream.bytesLeft
    {
      var status;
      status, slots, fixedField, fixedCount, seen :=
        DecodeTurn(stream, iter, slots, fixedField, fixedCount, fieldsSeen, seen);
      if !status.GoOn? {
        ok := status.Stop?;
        return;
      }
    }
    ok := true;
  }

  /** `pb_decode_noinit`. */
  method DecodeNoinit(stream: IStream, desc: Desc, dest: seq<Slot>) returns (ok: bool, slots: seq<Slot>)
    requires stream.Valid() && Searchable(desc)
    modifies stream
    ensures stream.Valid() && stream.End() == old(stream.End())
    ensures Does(ok, slots, stream.Rest(), DecMsg(desc, old(stream.Rest()), dest))
    decreases stream.bytesLeft, 9
  {
    var fieldsSeen := new nat[WORDS](_ => 0);
    NothingSeen(fieldsSeen[..]);
    var iter := new FieldIter.Begin(desc);
    var fixedField: Option<nat>, fixedCount: nat;
    ghost var seen: set<nat>;
    ok, slots, fixedField, fixedCount, seen := DecodeFields(stream, iter, dest, fieldsSeen);
    if !ok {
      return;
    }
    if fixedField.Some? && fixedCount != desc.fields[fixedField.value].arraySize {
      return false, slots;
    }
    ok := CheckRequired(iter, fieldsSeen, seen);
  }

  /** `pb_decode`. */
  method Decode(stream: IStream, desc: Desc) returns (ok: bool, slots: seq<Slot>)
    requires stream.Valid() && Searchable(desc)
    modifies stream
    ensures stream.Valid() && stream.End() == old(stream.End())
    ensures Does(ok, slots, stream.Rest(), PbDecodeSpec.Decode(desc, old(stream.Rest())))
    decreases stream.bytesLeft, 10
  {
    var defaults := SetToDefaults(desc);
    ok, slots := DecodeNoinit(stream, desc, defaults);
  }
}
