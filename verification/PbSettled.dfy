/** What a decoder leaves in the struct: it fits the struct, it can be encoded, and decoding that gives it again. */
module PbSettled {
  import opened Bytes
  import opened Wrappers
  import opened PbWire
  import opened PbSchema
  import opened PbDecodeSpec
  import opened PbRoundTrip
  import opened PbFormat
  import opened PbKept

  // ----- structs -----

  /** The struct has room for an empty value, and the default fits it. */
  predicate RoomFor(f: Field)
    decreases f
  {
    && (f.ltype.String? ==> f.dataSize > 0)
    && (f.ltype.Bytes? ==> f.dataSize >= BYTES_HEADER)
    && (f.ltype.SubMsg? ==> StructOk(f.ltype.desc))
    && (f.default.Some? && !f.ltype.SubMsg? ==> ValOk(f, f.default.value))
  }

  predicate StructOk(desc: Desc)
    decreases desc
  {
    forall i :: 0 <= i < |desc.fields| ==> RoomFor(desc.fields[i])
  }

  /** The value fits its place, whether or not it is in use. */
  predicate ValSettled(f: Field, v: Val)
    decreases f, 0
  {
    match f.ltype
    case SubMsg(sub) => v.Msg? && Settled(sub, v.slots)
    case _ => ValOk(f, v)
  }

  /** An absent field holds its default, and an array has no more entries than there are places. */
  predicate SlotSettled(f: Field, s: Slot)
    decreases f, 1
  {
    match f.htype
    case Required => s.Single? && !s.has && ValSettled(f, s.val)
    case Optional =>
      && s.Single? && ValSettled(f, s.val) && (f.sizeOffset == 0 ==> !s.has)
      && (f.sizeOffset != 0 && !s.has ==> s == DefaultSlot(f))
    case Repeated =>
      && s.Many? && SizeOk(f, |s.items|) && s == Listed(f, s.items)
      && forall i :: 0 <= i < |s.items| ==> ValSettled(f, s.items[i])
    case Oneof => s == DefaultSlot(f)
  }

  /** A union is empty, or holds the member that its selector says. */
  predicate UnionSettled(desc: Desc, k: nat, s: Slot)
    requires k < |desc.fields|
    decreases desc, 0
  {
    s == DefaultSlot(desc.fields[k]) ||
    (s.Chosen? && s.which != 0 &&
     var j := FindFrom(desc, s.which, 0);
     j.Some? && Chooses(desc, k, s.which, j.value) && ValSettled(desc.fields[j.value], s.val))
  }

  predicate Settled(desc: Desc, slots: seq<Slot>)
    decreases desc, 1
  {
    && |slots| == |desc.fields|
    && forall k :: 0 <= k < |desc.fields| ==>
         if SlotOf(desc, k) != k then slots[k] == DefaultSlot(desc.fields[k])
         else if desc.fields[k].htype.Oneof? then UnionSettled(desc, k, slots[k])
         else SlotSettled(desc.fields[k], slots[k])
  }

  // ----- the defaults -----

  lemma {:induction false} DefaultValSettled(f: Field)
    requires FieldOk(f) && RoomFor(f)
    ensures ValSettled(f, DefaultVal(f)) && ValSettled(f, ZeroItem(f))
    decreases f, 0
  {
    if f.ltype.SubMsg? {
      DefaultsSettled(f.ltype.desc);
    }
  }

  lemma {:induction false} DefaultSlotSettled(f: Field)
    requires FieldOk(f) && RoomFor(f)
    ensures SlotSettled(f, DefaultSlot(f))
    decreases f, 1
  {
    DefaultValSettled(f);
  }

  lemma {:induction false} DefaultsSettled(desc: Desc)
    requires SchemaOk(desc) && StructOk(desc)
    ensures Settled(desc, Defaults(desc))
    decreases desc
  {
    forall k | 0 <= k < |desc.fields|
      ensures SlotSettled(desc.fields[k], DefaultSlot(desc.fields[k]))
    {
      DefaultSlotSettled(desc.fields[k]);
    }
  }

  // ----- what can be encoded, and is as clean as can be -----

  lemma {:induction false} SettledVal(f: Field, v: Val)
    requires FieldOk(f) && ValSettled(f, v)
    ensures ValOk(f, v) && CleanVal(f, v) == v
    decreases f, 0
  {
    if f.ltype.SubMsg? {
      SettledMsg(f.ltype.desc, v.slots);
    }
  }

  lemma {:induction false} SettledSlot(f: Field, s: Slot)
    requires FieldOk(f) && SlotSettled(f, s) && !f.htype.Oneof?
    ensures SlotOk(f, s) && CleanSlot(f, s) == s
    decreases f, 1
  {
    if f.htype.Repeated? {
      forall i | 0 <= i < |s.items|
        ensures ValOk(f, s.items[i]) && CleanVal(f, s.items[i]) == s.items[i]
      {
        SettledVal(f, s.items[i]);
      }
      assert CleanSlot(f, s).items == s.items;
    } else {
      SettledVal(f, s.val);
    }
  }

  /** What is settled is well-formed, and nothing in it is left over from before. */
  lemma {:induction false} SettledMsg(desc: Desc, slots: seq<Slot>)
    requires SchemaOk(desc) && Settled(desc, slots)
    ensures MsgOk(desc, slots) && Clean(desc, slots) == slots
    decreases desc
  {
    forall k | 0 <= k < |desc.fields|
      ensures CleanAt(desc, slots, k) == slots[k]
      ensures SlotOf(desc, k) == k ==> GroupOk(desc, k, slots[k])
    {
      if SlotOf(desc, k) == k {
        if desc.fields[k].htype.Oneof? {
          SettledUnion(desc, slots, k);
        } else {
          SettledSlot(desc.fields[k], slots[k]);
        }
      }
    }
    assert MsgOk(desc, slots);
  }

  /** What a well-formed message has at a slot. */
  predicate GroupOk(desc: Desc, k: nat, s: Slot)
    requires k < |desc.fields|
  {
    if desc.fields[k].htype.Oneof? then
      s.Chosen? &&
      (s.which == 0 ||
       exists j :: k <= j < |desc.fields| && Chooses(desc, k, s.which, j) && ValOk(desc.fields[j], s.val))
    else SlotOk(desc.fields[k], s)
  }

  lemma {:induction false} SettledUnion(desc: Desc, slots: seq<Slot>, k: nat)
    requires SchemaOk(desc) && |slots| == |desc.fields| && k < |desc.fields| && SlotOf(desc, k) == k
    requires desc.fields[k].htype.Oneof? && UnionSettled(desc, k, slots[k])
    ensures CleanAt(desc, slots, k) == slots[k] && GroupOk(desc, k, slots[k])
    decreases desc, 0
  {
    if slots[k] != DefaultSlot(desc.fields[k]) {
      var j := FindFrom(desc, slots[k].which, 0).value;
      SettledVal(desc.fields[j], slots[k].val);
      assert k <= j;
    }
  }

  // ----- the decoder keeps it so -----

  lemma FixedSettled(f: Field, s: seq<byte>, was: Val)
    requires f.ltype.Fixed32? || f.ltype.Fixed64?
    ensures DecVal(f, s, was).Some? ==> ValOk(f, DecVal(f, s, was).value.value)
  {
    var n := if f.ltype.Fixed32? then 4 else 8;
    if |s| >= n {
      FixedFits(s[..n]);
      PowersOfTwo();
    }
  }

  lemma IntegerSettled(f: Field, s: seq<byte>)
    requires FieldOk(f) && (f.ltype.Varint? || f.ltype.UVarint? || f.ltype.SVarint?)
    ensures DecInteger(f, s).Some? ==> ValOk(f, DecInteger(f, s).value.value)
  {
  }

  lemma BlobSettled(f: Field, s: seq<byte>)
    requires f.ltype.Bytes? || f.ltype.String? || f.ltype.FixedBytes?
    ensures DecBlob(f, s).Some? ==> ValOk(f, DecBlob(f, s).value.value)
  {
    var n := ReadVarint32(s);
    if f.ltype.String? && n.Some? && n.value.value <= |n.value.rest| {
      StringOf(n.value.rest[..n.value.value]);
    }
  }

  /** Where a submessage is decoded into. */
  predicate Receives(f: Field, was: Val) {
    f.ltype.SubMsg? && !f.htype.Repeated? && was.Msg? ==> ValSettled(f, was)
  }

  lemma {:induction false} ValStays(f: Field, s: seq<byte>, was: Val)
    requires FieldOk(f) && RoomFor(f) && Receives(f, was)
    ensures DecVal(f, s, was).Some? ==> ValSettled(f, DecVal(f, s, was).value.value)
    decreases |s|, 1
  {
    if f.ltype.SubMsg? {
      SubStays(f, s, was);
    } else if f.ltype.Fixed32? || f.ltype.Fixed64? {
      FixedSettled(f, s, was);
    } else if f.ltype.Bytes? || f.ltype.String? || f.ltype.FixedBytes? {
      BlobSettled(f, s);
    } else {
      IntegerSettled(f, s);
    }
  }

  lemma {:induction false} SubStays(f: Field, s: seq<byte>, was: Val)
    requires FieldOk(f) && RoomFor(f) && Receives(f, was) && f.ltype.SubMsg?
    ensures DecVal(f, s, was).Some? ==> ValSettled(f, DecVal(f, s, was).value.value)
    decreases |s|, 0
  {
    var sub, p := f.ltype.desc, ReadPrefixed(s);
    if p.Some? {
      DefaultsSettled(sub);
      var into := if f.htype.Repeated? || !was.Msg? then Defaults(sub) else was.slots;
      MsgStays(sub, p.value.value, into);
    }
  }

  predicate ArraySettled(f: Field, a: Array) {
    && |a.items| == (if f.FixedCount() then f.arraySize else a.count)
    && (!f.FixedCount() ==> a.count <= f.arraySize)
    && forall i :: 0 <= i < |a.items| ==> ValSettled(f, a.items[i])
  }

  lemma {:induction false} EntryStays(f: Field, s: seq<byte>, a: Array)
    requires FieldOk(f) && RoomFor(f) && f.htype.Repeated? && ArraySettled(f, a) && a.count < f.arraySize
    ensures var v := DecVal(f, s, OldItem(f, a.items, a.count));
            v.Some? ==> ArraySettled(f, Array(PutItem(f, a.items, a.count, v.value.value), a.count + 1))
    decreases |s|, 2
  {
    ValStays(f, s, OldItem(f, a.items, a.count));
  }

  lemma {:induction false} PackedStays(f: Field, s: seq<byte>, a: Array)
    requires FieldOk(f) && RoomFor(f) && f.htype.Repeated? && ArraySettled(f, a)
    ensures DecPacked(f, s, a).Some? ==> ArraySettled(f, DecPacked(f, s, a).value)
    decreases |s|, 3
  {
    if s != [] && a.count < f.arraySize {
      EntryStays(f, s, a);
      var v := DecVal(f, s, OldItem(f, a.items, a.count));
      if v.Some? {
        PackedStays(f, v.value.rest, Array(PutItem(f, a.items, a.count, v.value.value), a.count + 1));
      }
    }
  }

  lemma {:induction false} RepeatedStays(f: Field, wireType: nat, s: seq<byte>, a: Array)
    requires FieldOk(f) && RoomFor(f) && f.htype.Repeated? && ArraySettled(f, a)
    ensures var r := DecRepeated(f, wireType, s, a); r.Some? ==> ArraySettled(f, r.value.value)
    decreases |s|, 4
  {
    if wireType == WT_STRING && f.Packable() {
      var p := ReadPrefixed(s);
      if p.Some? {
        PackedStays(f, p.value.value, a);
      }
    } else if a.count < f.arraySize {
      EntryStays(f, s, a);
    }
  }

  /** What decoding a field leaves in its slot. */
  predicate Becomes(f: Field, s: Slot) {
    if f.htype.Oneof? then s.Chosen? && s.which == f.tag && ValSettled(f, s.val) else SlotSettled(f, s)
  }

  lemma {:induction false} StaticStays(f: Field, wireType: nat, s: seq<byte>, slot: Slot, count: nat)
    requires FieldOk(f) && RoomFor(f) && (!f.htype.Oneof? ==> SlotSettled(f, slot))
    ensures var p := DecStatic(f, wireType, s, slot, count); p.Some? ==> Becomes(f, p.value.value.slot)
    decreases |s|, 5
  {
    if Shape(f, slot) {
      match f.htype
      case Repeated =>
        RepeatedStays(f, wireType, s, Array(slot.items, if f.FixedCount() then count else |slot.items|));
      case Oneof =>
        DefaultValSettled(f);
        ValStays(f, s, if f.ltype.SubMsg? then Msg(Defaults(f.ltype.desc)) else Num(0));
      case _ => ValStays(f, s, slot.val);
    }
  }

  lemma {:induction false} FieldStays(desc: Desc, i: nat, wireType: nat, s: seq<byte>, st: State)
    requires SchemaOk(desc) && StructOk(desc) && i < |desc.fields| && Settled(desc, st.slots)
    ensures var next := DecField(desc, i, wireType, s, st);
            next.Some? ==> Settled(desc, next.value.value.slots)
    decreases |s|, 6
  {
    var k, f := SlotOf(desc, i), desc.fields[i];
    UnionSlot(desc, i);
    var noted := Noted(desc, i, st);
    if noted.Some? {
      StaticStays(f, wireType, s, st.slots[k], noted.value.fixedCount);
      var p := DecStatic(f, wireType, s, st.slots[k], noted.value.fixedCount);
      if p.Some? {
        SlotStays(desc, i, st.slots, p.value.value.slot);
      }
    }
  }

  lemma {:induction false} SlotStays(desc: Desc, i: nat, slots: seq<Slot>, s: Slot)
    requires SchemaOk(desc) && i < |desc.fields| && Settled(desc, slots) && Becomes(desc.fields[i], s)
    ensures Settled(desc, slots[SlotOf(desc, i) := s])
  {
    UnionSlot(desc, i);
    if desc.fields[i].htype.Oneof? {
      FirstMatch(desc, i, 0);
      assert UnionSettled(desc, SlotOf(desc, i), s);
    }
  }

  lemma {:induction false} LoopStays(desc: Desc, s: seq<byte>, st: State)
    requires SchemaOk(desc) && StructOk(desc) && Settled(desc, st.slots)
    ensures DecLoop(desc, s, st).Some? ==> Settled(desc, DecLoop(desc, s, st).value.state.slots)
    decreases |s|, 8
  {
    if s != [] {
      var t, turn := ReadTag(s), DecTurn(desc, s, st);
      if turn.Took? {
        var i := FindFrom(desc, t.tag, 0);
        if i.Some? {
          FieldStays(desc, i.value, t.wireType, t.rest, st);
        }
        LoopStays(desc, turn.rest, turn.state);
      }
    }
  }

  /** Whatever the input, decoding never leaves anything in the struct that does not fit it. */
  lemma {:induction false} MsgStays(desc: Desc, s: seq<byte>, slots: seq<Slot>)
    requires SchemaOk(desc) && StructOk(desc) && Settled(desc, slots)
    ensures DecMsg(desc, s, slots).Some? ==> Settled(desc, DecMsg(desc, s, slots).value.value)
    decreases |s|, 9
  {
    LoopStays(desc, s, Start(slots));
  }

  // ----- decoding, encoding and decoding again -----

  /** Whatever decodes, canonical or not, can be encoded; and that decodes to the same again, if and only if
      every length fits and every singular field is kept. */
  lemma DecodedEncodes(desc: Desc, s: seq<byte>)
    requires SchemaOk(desc) && StructOk(desc) && Decode(desc, s).Some?
    ensures var slots := Decode(desc, s).value.value;
            && MsgOk(desc, slots) && EncMsg(desc, slots).Some?
            && (|EncMsg(desc, slots).value| < TWO63 ==>
                  (Decode(desc, EncMsg(desc, slots).value) == Some(Got(slots, [])) <==>
                   Fits(desc, slots) && Kept(desc, slots)))
  {
    DefaultsSettled(desc);
    MsgStays(desc, s, Defaults(desc));
    var slots := Decode(desc, s).value.value;
    SettledMsg(desc, slots);
    RoundTrip(desc, slots);
  }

  /** Under a plain schema: whatever decodes to a message whose encoding is below 4 GiB. */
  lemma PlainDecodedEncodes(desc: Desc, s: seq<byte>)
    requires SchemaOk(desc) && StructOk(desc) && Plain(desc) && Decode(desc, s).Some?
    ensures var slots := Decode(desc, s).value.value;
            && EncMsg(desc, slots).Some?
            && (|EncMsg(desc, slots).value| < TWO32 ==> Decode(desc, EncMsg(desc, slots).value) == Some(Got(slots, [])))
  {
    DecodedEncodes(desc, s);
    var slots := Decode(desc, s).value.value;
    PlainKept(desc, slots);
    if |EncMsg(desc, slots).value| < TWO32 {
      SmallFits(desc, slots);
    }
  }
}
