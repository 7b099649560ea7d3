/** What comes back when a message is encoded and decoded: what the encoder wrote, with defaults for the rest;
    unless a length does not fit the 32 bits that the decoder reads it with. */
module PbRoundTrip {
  import opened Words
  import opened Bytes
  import opened Wrappers
  import opened PbWire
  import opened PbSchema
  import opened PbFieldIter
  import opened PbDecodeSpec

  // ----- well-formed schemas and messages -----

  predicate SchemaOk(desc: Desc)
    decreases desc
  {
    TagsNonZero(desc) && TagsDistinct(desc) && forall i :: 0 <= i < |desc.fields| ==> FieldOk(desc.fields[i])
  }

  predicate FieldOk(f: Field)
    decreases f
  {
    && f.tag < 0x2000_0000 && f.dataSize < TWO32
    && (f.ltype.Varint? || f.ltype.UVarint? || f.ltype.SVarint? ==> IntSize(f.dataSize))
    && (f.ltype.SubMsg? ==> SchemaOk(f.ltype.desc))
  }

  predicate ValOk(f: Field, v: Val)
    decreases f
  {
    match f.ltype
    case Varint | SVarint => v.Num? && InRange(f.dataSize, v.i)
    case UVarint => v.Num? && InRangeUnsigned(f.dataSize, v.i)
    case Fixed32 => v.Num? && 0 <= v.i < TWO32
    case Fixed64 => v.Num? && 0 <= v.i < TWO64
    case Bytes => v.Blob? && |v.b| + BYTES_HEADER <= f.dataSize
    case String => v.Blob? && |v.b| < f.dataSize && 0 !in v.b
    case FixedBytes => v.Blob? && |v.b| == f.dataSize
    case SubMsg(sub) => v.Msg? && MsgOk(sub, v.slots)
  }

  /** An optional field that is absent may hold anything; a union is empty or holds one of its members. */
  predicate MsgOk(desc: Desc, slots: seq<Slot>)
    decreases desc
  {
    && |slots| == |desc.fields|
    && forall i :: 0 <= i < |desc.fields| && SlotOf(desc, i) == i ==>
         var f, s := desc.fields[i], slots[i];
         match f.htype
         case Required => s.Single? && ValOk(f, s.val)
         case Optional => s.Single? && (f.sizeOffset == 0 || s.has ==> ValOk(f, s.val))
         case Repeated =>
           s.Many? && SizeOk(f, |s.items|) && forall j :: 0 <= j < |s.items| ==> ValOk(f, s.items[j])
         case Oneof =>
           s.Chosen? && (s.which == 0
             || exists j :: i <= j < |desc.fields| && Chooses(desc, i, s.which, j) && ValOk(desc.fields[j], s.val))
  }

  /** As many entries as the array can have. */
  predicate SizeOk(f: Field, n: nat) {
    f.htype.Repeated? && if f.FixedCount() then n == f.arraySize else n <= f.arraySize
  }

  /** Field `j` is the member with this tag of the union at slot `k`. */
  predicate Chooses(desc: Desc, k: nat, which: nat, j: nat)
    requires j < |desc.fields|
  {
    SlotOf(desc, j) == k && desc.fields[j].tag == which && desc.fields[j].htype.Oneof?
  }

  // ----- what comes back -----

  /** The field has anything to write. */
  predicate Written(f: Field, s: Slot) {
    match (f.htype, s)
    case (Required, _) => true
    case (Optional, Single(has, _)) => if f.sizeOffset != 0 then has else !IsDefault(f, s)
    case (Repeated, Many(items, _)) => items != []
    case (Oneof, Chosen(which, _)) => which == f.tag
    case _ => false
  }

  function BackVal(f: Field, v: Val): Val
    decreases f, 0
  {
    if f.ltype.SubMsg? && v.Msg? then Msg(Back(f.ltype.desc, v.slots)) else v
  }

  function BackSlot(f: Field, s: Slot): Slot
    decreases f, 1
  {
    match (f.htype, s)
    case (Required, Single(_, v)) => Single(false, BackVal(f, v))
    case (Optional, Single(_, v)) => if Written(f, s) then Single(f.sizeOffset != 0, BackVal(f, v)) else DefaultSlot(f)
    case (Repeated, Many(items, _)) => Listed(f, seq(|items|, i requires 0 <= i < |items| => BackVal(f, items[i])))
    case (Oneof, Chosen(which, v)) => Chosen(f.tag, BackVal(f, v))
    case _ => s
  }

  /** The message as it is after encoding and decoding: what was written, and defaults for the rest. */
  function Back(desc: Desc, slots: seq<Slot>): (r: seq<Slot>)
    ensures |r| == |desc.fields|
    decreases desc
  {
    Mixed(desc, slots, |desc.fields|)
  }

  /** The contents when the fields before `i` have been decoded. */
  function Mixed(desc: Desc, slots: seq<Slot>, i: nat): (r: seq<Slot>)
    requires i <= |desc.fields|
    ensures |r| == |desc.fields|
    ensures forall k :: 0 <= k < |r| ==> r[k] == MixedSlot(desc, slots, i, k)
    decreases desc, 1
  {
    seq(|desc.fields|, k requires 0 <= k < |desc.fields| => MixedSlot(desc, slots, i, k))
  }

  function MixedSlot(desc: Desc, slots: seq<Slot>, i: nat, k: nat): Slot
    requires k < |desc.fields|
    decreases desc, 0
  {
    var f := desc.fields[k];
    if |slots| != |desc.fields| || SlotOf(desc, k) != k then DefaultSlot(f)
    else if !f.htype.Oneof? then if k < i then BackSlot(f, slots[k]) else DefaultSlot(f)
    else if !slots[k].Chosen? || slots[k].which == 0 then DefaultSlot(f)
    else
      var j := FindFrom(desc, slots[k].which, 0);
      if j.Some? && j.value < i then BackSlot(desc.fields[j.value], slots[k]) else DefaultSlot(f)
  }

  // ----- lengths that fit -----

  /** Every length written with the value is below 2 to the 32. */
  predicate FitsVal(f: Field, v: Val)
    decreases f, 0
  {
    match (f.ltype, v)
    case (SubMsg(sub), Msg(slots)) =>
      var e := EncMsg(sub, slots);
      e.Some? && |e.value| < TWO32 && Fits(sub, slots)
    case _ => true
  }

  predicate FitsSlot(f: Field, s: Slot)
    decreases f, 1
  {
    match (f.htype, s)
    case (Required, Single(_, v)) => FitsVal(f, v)
    case (Optional, Single(_, v)) => Written(f, s) ==> FitsVal(f, v)
    case (Repeated, Many(items, _)) =>
      if f.Packable() then
        var e := EncItems(f, items);
        e.Some? && |e.value| < TWO32
      else forall i :: 0 <= i < |items| ==> FitsVal(f, items[i])
    case (Oneof, Chosen(which, v)) => which == f.tag ==> FitsVal(f, v)
    case _ => false
  }

  predicate Fits(desc: Desc, slots: seq<Slot>)
    decreases desc
  {
    |slots| == |desc.fields| && forall i :: 0 <= i < |desc.fields| ==> FitsSlot(desc.fields[i], slots[SlotOf(desc, i)])
  }

  // ----- values -----

  lemma LittleEndianDecodes(v: nat, n: nat, tail: seq<byte>)
    requires v < Pow2(8 * n)
    ensures var s := LittleEndian(v, n) + tail; FromLittleEndian(s[..n]) == v && s[n..] == tail
  {
    FixedRoundTrip(v, n);
    var s := LittleEndian(v, n) + tail;
    assert s[..n] == LittleEndian(v, n);
  }

  lemma PrefixDecodes(b: seq<byte>, tail: seq<byte>)
    requires |b| < TWO63
    ensures ReadVarint32(Prefixed(b) + tail) == if |b| < TWO32 then Some(Got(|b|, b + tail)) else None
    ensures (b + tail)[..|b|] == b && (b + tail)[|b|..] == tail
  {
    Varint32RoundTrip(|b|, b + tail);
    assert Prefixed(b) + tail == EncodeVarint(|b|) + (b + tail);
  }

  lemma {:induction false} NoNul(b: seq<byte>)
    requires 0 !in b
    ensures UpToNul(b) == b
  {
    if b != [] {
      NoNul(b[1..]);
    }
  }

  lemma SignedDecodes(f: Field, i: int)
    requires IntSize(f.dataSize) && InRange(f.dataSize, i)
    ensures DecSigned(f, ToUnsigned64(i)) == Some(Num(i))
  {
    if f.dataSize != 8 {
      LowWord(i);
    }
  }

  lemma LowWord(i: int)
    requires -TWO31 <= i < TWO31
    ensures ToUnsigned64(i) % TWO32 == if i < 0 then TWO32 + i else i
  {
    if i < 0 {
      assert TWO64 + i == TWO32 * (TWO32 - 1) + (TWO32 + i);
    }
  }

  lemma IntegerDecodes(f: Field, v: Val, tail: seq<byte>, was: Val)
    requires FieldOk(f) && ValOk(f, v) && (f.ltype.Varint? || f.ltype.UVarint? || f.ltype.SVarint?)
    ensures EncVal(f, v).Some?
    ensures DecVal(f, EncVal(f, v).value + tail, was) == Some(Got(v, tail))
  {
    var w := if f.ltype.Varint? then ToUnsigned64(v.i) else if f.ltype.UVarint? then v.i else ZigZag(v.i);
    assert EncVal(f, v) == Some(EncodeVarint(w));
    VarintRoundTrip(w, tail);
    var s := EncodeVarint(w) + tail;
    assert ReadWord(s) == Some(Got(w, tail));
    if f.ltype.Varint? {
      SignedDecodes(f, v.i);
      assert DecVal(f, s, was) == Take(DecSigned(f, w), tail);
    } else if f.ltype.SVarint? {
      ZigZagRoundTrip(v.i);
      assert DecVal(f, s, was) == Take(Narrow(f, UnZigZag(w)), tail);
    }
  }

  lemma FixedDecodes(f: Field, v: Val, tail: seq<byte>, was: Val)
    requires ValOk(f, v) && (f.ltype.Fixed32? || f.ltype.Fixed64?)
    ensures EncVal(f, v).Some?
    ensures DecVal(f, EncVal(f, v).value + tail, was) == Some(Got(v, tail))
  {
    PowersOfTwo();
    LittleEndianDecodes(v.i, if f.ltype.Fixed32? then 4 else 8, tail);
  }

  lemma BytesDecode(f: Field, v: Val, tail: seq<byte>, was: Val)
    requires FieldOk(f) && ValOk(f, v) && (f.ltype.Bytes? || f.ltype.String? || f.ltype.FixedBytes?)
    ensures EncVal(f, v) == Some(Prefixed(v.b))
    ensures DecVal(f, Prefixed(v.b) + tail, was) == Some(Got(v, tail))
  {
    PrefixDecodes(v.b, tail);
    if f.ltype.String? {
      NoNul(v.b);
    }
    if f.ltype.FixedBytes? && v.b == [] {
      assert Zeros(f.dataSize) == v.b;
    }
  }

  /** Where a submessage goes: the decoder starts from its defaults. */
  predicate Fresh(f: Field, was: Val) {
    f.ltype.SubMsg? && !f.htype.Repeated? && was.Msg? ==> was.slots == Defaults(f.ltype.desc)
  }

  lemma {:induction false} ValDecodes(f: Field, v: Val, tail: seq<byte>, was: Val)
    requires FieldOk(f) && ValOk(f, v) && Fresh(f, was)
    ensures EncVal(f, v).Some?
    ensures |EncVal(f, v).value| < TWO63 ==>
              DecVal(f, EncVal(f, v).value + tail, was) ==
              if FitsVal(f, v) then Some(Got(BackVal(f, v), tail)) else None
    decreases f, 1
  {
    if f.ltype.SubMsg? {
      SubmessageDecodes(f, v, tail, was);
    } else if f.ltype.Fixed32? || f.ltype.Fixed64? {
      FixedDecodes(f, v, tail, was);
    } else if f.ltype.Bytes? || f.ltype.String? || f.ltype.FixedBytes? {
      BytesDecode(f, v, tail, was);
    } else {
      IntegerDecodes(f, v, tail, was);
    }
  }

  lemma {:induction false} SubmessageDecodes(f: Field, v: Val, tail: seq<byte>, was: Val)
    requires FieldOk(f) && ValOk(f, v) && Fresh(f, was) && f.ltype.SubMsg?
    ensures EncVal(f, v).Some?
    ensures |EncVal(f, v).value| < TWO63 ==>
              DecVal(f, EncVal(f, v).value + tail, was) ==
              if FitsVal(f, v) then Some(Got(BackVal(f, v), tail)) else None
    decreases f, 0
  {
    var sub := f.ltype.desc;
    MsgDecodes(sub, v.slots);
    var e := EncMsg(sub, v.slots).value;
    if |Prefixed(e)| < TWO63 {
      PrefixDecodes(e, tail);
    }
  }


  // ----- fields with a single value -----

  lemma TagDecodes(tag: nat, wireType: nat, body: seq<byte>)
    requires 0 < tag < 0x2000_0000 && wireType < 8
    ensures ReadTag(EncTag(wireType, tag) + body) == FieldTag(tag, wireType, body)
  {
    var word := 8 * tag + wireType;
    Varint32RoundTrip(word, body);
    assert word / 8 == tag && word % 8 == wireType;
  }

  /** A known tag in front: one turn of the loop decodes its field. */
  lemma KnownField(desc: Desc, i: nat, wireType: nat, body: seq<byte>, st: State)
    requires SchemaOk(desc) && i < |desc.fields| && wireType < 8
    ensures var next := DecField(desc, i, wireType, body, st);
            DecLoop(desc, EncTag(wireType, desc.fields[i].tag) + body, st) ==
            if next.None? then None else DecLoop(desc, next.value.rest, next.value.value)
  {
    assert FieldOk(desc.fields[i]);
    TagDecodes(desc.fields[i].tag, wireType, body);
    FirstMatch(desc, i, 0);
    var s := EncTag(wireType, desc.fields[i].tag) + body;
    assert s != [];
    var next := DecField(desc, i, wireType, body, st);
    assert DecTurn(desc, s, st) == if next.None? then Refused else Took(next.value.value, next.value.rest);
  }

  function PutSingle(f: Field, s: Slot, v: Val): Slot {
    if f.htype.Oneof? then Chosen(f.tag, v)
    else if s.Single? then Single(s.has || (f.htype.Optional? && f.sizeOffset != 0), v)
    else s
  }

  /** A field that is not repeated. A submessage must be in its initial state. */
  lemma SingleDecodes(desc: Desc, i: nat, v: Val, tail: seq<byte>, st: State) returns (next: State)
    requires SchemaOk(desc) && i < |desc.fields| && !desc.fields[i].htype.Repeated? && ValOk(desc.fields[i], v)
    requires |st.slots| == |desc.fields| && Shape(desc.fields[i], st.slots[SlotOf(desc, i)])
    requires !desc.fields[i].htype.Oneof? ==> Fresh(desc.fields[i], st.slots[SlotOf(desc, i)].val)
    requires EncVal(desc.fields[i], v).Some? && |EncVal(desc.fields[i], v).value| < TWO63
    ensures var f, k := desc.fields[i], SlotOf(desc, i);
            && next == st.(slots := st.slots[k := PutSingle(f, st.slots[k], BackVal(f, v))],
                 seen := MarkSeen(desc, i, st.seen))
            && DecLoop(desc, EncTag(f.WireType(), f.tag) + EncVal(f, v).value + tail, st) ==
               if FitsVal(f, v) then DecLoop(desc, tail, next) else None
    decreases desc.fields[i], 2
  {
    var f, k := desc.fields[i], SlotOf(desc, i);
    next := st.(slots := st.slots[k := PutSingle(f, st.slots[k], BackVal(f, v))], seen := MarkSeen(desc, i, st.seen));
    var e := EncVal(f, v).value;
    assert EncTag(f.WireType(), f.tag) + e + tail == EncTag(f.WireType(), f.tag) + (e + tail);
    KnownField(desc, i, f.WireType(), e + tail, st);
    var was := if f.htype.Oneof? then (if f.ltype.SubMsg? then Msg(Defaults(f.ltype.desc)) else Num(0))
      else st.slots[k].val;
    ValDecodes(f, v, tail, was);
    assert Noted(desc, i, st) == Some(st.(seen := MarkSeen(desc, i, st.seen)));
    var placed := DecStatic(f, f.WireType(), e + tail, st.slots[k], st.fixedCount);
    assert placed == if FitsVal(f, v)
           then Some(Got(Placed(PutSingle(f, st.slots[k], BackVal(f, v)), st.fixedCount), tail)) else None;
  }

  // ----- arrays -----

  /** An array with these entries put in, from its count on. */
  function Filled(f: Field, a: Array, items: seq<Val>): Array
    requires HasRoom(f, a, |items|)
  {
    var put := if f.FixedCount() then a.items[..a.count] + items + a.items[a.count + |items|..] else a.items + items;
    Array(put, a.count + |items|)
  }

  predicate HasRoom(f: Field, a: Array, n: nat) {
    a.count + n <= f.arraySize && |a.items| == if f.FixedCount() then f.arraySize else a.count
  }

  lemma FilledStep(f: Field, a: Array, v: Val, rest: seq<Val>)
    requires HasRoom(f, a, 1 + |rest|)
    ensures var next := Array(PutItem(f, a.items, a.count, v), a.count + 1);
            HasRoom(f, next, |rest|) && Filled(f, next, rest) == Filled(f, a, [v] + rest)
  {
    var next := Array(PutItem(f, a.items, a.count, v), a.count + 1);
    if f.FixedCount() {
      assert next.items[..next.count] == a.items[..a.count] + [v];
      assert next.items[next.count + |rest|..] == a.items[a.count + (1 + |rest|)..];
      assert a.items[..a.count] + [v] + rest == a.items[..a.count] + ([v] + rest);
    } else {
      assert a.items + [v] + rest == a.items + ([v] + rest);
    }
  }

  lemma PackableDecodes(f: Field, v: Val, tail: seq<byte>, was: Val)
    requires FieldOk(f) && f.Packable() && ValOk(f, v)
    ensures EncVal(f, v).Some? && DecVal(f, EncVal(f, v).value + tail, was) == Some(Got(v, tail))
  {
    if f.ltype.Fixed32? || f.ltype.Fixed64? {
      FixedDecodes(f, v, tail, was);
    } else {
      IntegerDecodes(f, v, tail, was);
    }
  }

  lemma {:induction false} PackedDecodes(f: Field, items: seq<Val>, a: Array)
    requires FieldOk(f) && f.Packable() && HasRoom(f, a, |items|)
    requires forall j :: 0 <= j < |items| ==> ValOk(f, items[j])
    ensures EncItems(f, items).Some? && DecPacked(f, EncItems(f, items).value, a) == Some(Filled(f, a, items))
    decreases |items|
  {
    if items == [] {
      assert Filled(f, a, items).items == a.items;
    } else {
      var v, rest := items[0], items[1..];
      FilledStep(f, a, v, rest);
      assert [v] + rest == items;
      var next := Array(PutItem(f, a.items, a.count, v), a.count + 1);
      PackedDecodes(f, rest, next);
      PackableDecodes(f, v, EncItems(f, rest).value, OldItem(f, a.items, a.count));
    }
  }

  /** Field `i` is an array of which so many entries have been decoded. */
  predicate Midway(desc: Desc, i: nat, st: State, a: Array)
    requires i < |desc.fields|
  {
    && |st.slots| == |desc.fields| && SlotOf(desc, i) == i && st.slots[i].Many? && st.slots[i].items == a.items
    && (desc.fields[i].FixedCount() ==>
          if st.fixedField == Some(i) then st.fixedCount == a.count else a.count == 0 && FixedComplete(desc, st))
  }

  /** The state with more entries decoded. */
  function Further(desc: Desc, i: nat, st: State, a: Array): State
    requires i < |desc.fields| && |st.slots| == |desc.fields|
  {
    if desc.fields[i].FixedCount() then State(st.slots[i := Listed(desc.fields[i], a.items)], Some(i), a.count, st.seen)
    else st.(slots := st.slots[i := Listed(desc.fields[i], a.items)])
  }

  /** One field of the input that belongs to array `i`. */
  lemma ArrayField(desc: Desc, i: nat, wireType: nat, body: seq<byte>, st: State, a: Array)
    requires SchemaOk(desc) && i < |desc.fields| && desc.fields[i].htype.Repeated? && wireType < 8
    requires Midway(desc, i, st, a) && HasRoom(desc.fields[i], a, 0)
    ensures var r := DecRepeated(desc.fields[i], wireType, body, a);
            DecLoop(desc, EncTag(wireType, desc.fields[i].tag) + body, st) ==
            if r.None? then None else DecLoop(desc, r.value.rest, Further(desc, i, st, r.value.value))
  {
    KnownField(desc, i, wireType, body, st);
    var f := desc.fields[i];
    var noted := Noted(desc, i, st);
    assert noted == Some(if f.FixedCount() then st.(fixedField := Some(i), fixedCount := a.count) else st);
    assert Array(st.slots[i].items, if f.FixedCount() then noted.value.fixedCount else |st.slots[i].items|) == a;
  }

  function BackItems(f: Field, items: seq<Val>): (r: seq<Val>)
    ensures |r| == |items|
  {
    seq(|items|, i requires 0 <= i < |items| => BackVal(f, items[i]))
  }

  lemma MidwayFurther(desc: Desc, i: nat, st: State, a: Array, next: Array)
    requires i < |desc.fields| && Midway(desc, i, st, a)
    ensures Midway(desc, i, Further(desc, i, st, next), next)
  {
  }

  /** The array with one more entry. */
  function Entered(f: Field, a: Array, v: Val): Array {
    Array(PutItem(f, a.items, a.count, BackVal(f, v)), a.count + 1)
  }

  lemma {:induction false} EntryDecodes(f: Field, v: Val, tail: seq<byte>, a: Array)
    requires FieldOk(f) && f.htype.Repeated? && HasRoom(f, a, 1) && ValOk(f, v)
    ensures EncVal(f, v).Some?
    ensures |EncVal(f, v).value| < TWO63 ==>
              DecRepeated(f, f.WireType(), EncVal(f, v).value + tail, a) ==
              if FitsVal(f, v) then Some(Got(Entered(f, a, v), tail)) else None
    decreases f, 3
  {
    ValDecodes(f, v, tail, OldItem(f, a.items, a.count));
  }

  /** One entry with a tag of its own. */
  lemma {:induction false} EntryField(desc: Desc, i: nat, v: Val, tail: seq<byte>, st: State, a: Array)
    requires SchemaOk(desc) && i < |desc.fields| && desc.fields[i].htype.Repeated?
    requires Midway(desc, i, st, a) && HasRoom(desc.fields[i], a, 1) && ValOk(desc.fields[i], v)
    ensures var f := desc.fields[i];
            && EncVal(f, v).Some?
            && (|EncVal(f, v).value| < TWO63 ==>
                  DecLoop(desc, EncTag(f.WireType(), f.tag) + (EncVal(f, v).value + tail), st) ==
                  if FitsVal(f, v) then DecLoop(desc, tail, Further(desc, i, st, Entered(f, a, v))) else None)
    decreases desc.fields[i], 4
  {
    var f := desc.fields[i];
    EntryDecodes(f, v, tail, a);
    ArrayField(desc, i, f.WireType(), EncVal(f, v).value + tail, st, a);
  }

  /** Every entry fits. */
  predicate FitAll(f: Field, items: seq<Val>) {
    forall j :: 0 <= j < |items| ==> FitsVal(f, items[j])
  }

  lemma {:induction false} TaggedDecodes(desc: Desc, i: nat, items: seq<Val>, tail: seq<byte>, st: State, a: Array)
    requires SchemaOk(desc) && i < |desc.fields| && desc.fields[i].htype.Repeated?
    requires Midway(desc, i, st, a) && HasRoom(desc.fields[i], a, |items|)
    requires forall j :: 0 <= j < |items| ==> ValOk(desc.fields[i], items[j])
    ensures var f := desc.fields[i];
            && EncTagged(f, items).Some?
            && (|EncTagged(f, items).value| < TWO63 ==>
                  DecLoop(desc, EncTagged(f, items).value + tail, st) ==
                  if !FitAll(f, items) then None
                  else if items == [] then DecLoop(desc, tail, st)
                  else DecLoop(desc, tail, Further(desc, i, st, Filled(f, a, BackItems(f, items)))))
    decreases desc.fields[i], 5, |items|
  {
    var f := desc.fields[i];
    if items == [] {
      assert [] + tail == tail;
    } else {
      var v, rest := items[0], items[1..];
      var next := Entered(f, a, v);
      var after := Further(desc, i, st, next);
      FilledFirst(f, a, items);
      MidwayFurther(desc, i, st, a, next);
      TaggedDecodes(desc, i, rest, tail, after, next);
      var more := EncTagged(f, rest).value;
      EntryField(desc, i, v, more + tail, st, a);
      TaggedFirst(f, items, more, tail);
      FurtherTwice(desc, i, st, next, Filled(f, next, BackItems(f, rest)));
    }
  }

  lemma FilledFirst(f: Field, a: Array, items: seq<Val>)
    requires HasRoom(f, a, |items|) && items != []
    ensures var next, rest := Entered(f, a, items[0]), items[1..];
            && HasRoom(f, next, |rest|) && Filled(f, next, BackItems(f, rest)) == Filled(f, a, BackItems(f, items))
            && (rest == [] ==> Filled(f, a, BackItems(f, items)) == next)
            && (FitAll(f, items) <==> FitsVal(f, items[0]) && FitAll(f, rest))
  {
    var next, rest := Entered(f, a, items[0]), items[1..];
    FilledStep(f, a, BackVal(f, items[0]), BackItems(f, rest));
    assert [BackVal(f, items[0])] + BackItems(f, rest) == BackItems(f, items);
    assert items == [items[0]] + rest;
    if rest == [] {
      assert Filled(f, next, BackItems(f, rest)).items == next.items;
    }
  }

  lemma TaggedFirst(f: Field, items: seq<Val>, more: seq<byte>, tail: seq<byte>)
    requires items != [] && EncVal(f, items[0]).Some? && EncTagged(f, items[1..]) == Some(more)
    ensures EncTagged(f, items).Some?
    ensures EncTagged(f, items).value + tail ==
              EncTag(f.WireType(), f.tag) + (EncVal(f, items[0]).value + (more + tail))
    ensures |EncTagged(f, items).value| >= |EncVal(f, items[0]).value| + |more|
  {
    var first := EncTag(f.WireType(), f.tag) + EncVal(f, items[0]).value;
    assert EncTagged(f, items) == Some(first + more);
  }

  lemma FurtherTwice(desc: Desc, i: nat, st: State, a: Array, b: Array)
    requires i < |desc.fields| && |st.slots| == |desc.fields|
    ensures Further(desc, i, Further(desc, i, st, a), b) == Further(desc, i, st, b)
  {
  }

  /** The default contents of array `i`, of which nothing has been decoded. */
  function EmptyArray(f: Field): Array {
    Array(if f.FixedCount() then seq(f.arraySize, j => ZeroItem(f)) else [], 0)
  }

  predicate ArrayOk(f: Field, items: seq<Val>) {
    SizeOk(f, |items|) && forall j :: 0 <= j < |items| ==> ValOk(f, items[j])
  }

  lemma FilledWhole(f: Field, items: seq<Val>)
    requires SizeOk(f, |items|)
    ensures HasRoom(f, EmptyArray(f), |items|)
    ensures Filled(f, EmptyArray(f), items) == Array(items, |items|)
  {
    assert Filled(f, EmptyArray(f), items).items == items;
  }

  /** The encoding of an array, if it has one, is decoded as the whole array, unless a length in it does not
      fit. */
  predicate ArrayDecoded(
    desc: Desc, i: nat, items: seq<Val>, tail: seq<byte>, st: State, e: Option<seq<byte>>, fits: bool)
    requires i < |desc.fields| && |st.slots| == |desc.fields|
  {
    && e.Some?
    && (|e.value| < TWO63 ==>
          DecLoop(desc, e.value + tail, st) ==
          if !fits then None
          else DecLoop(desc, tail, Further(desc, i, st, Array(BackItems(desc.fields[i], items), |items|))))
  }

  lemma PackedArrayField(desc: Desc, i: nat, items: seq<Val>, tail: seq<byte>, st: State, a: Array)
    requires SchemaOk(desc) && i < |desc.fields| && desc.fields[i].htype.Repeated? && desc.fields[i].Packable()
    requires Midway(desc, i, st, a) && HasRoom(desc.fields[i], a, |items|)
    requires forall j :: 0 <= j < |items| ==> ValOk(desc.fields[i], items[j])
    ensures var f := desc.fields[i];
            && EncItems(f, items).Some?
            && (|EncItems(f, items).value| < TWO63 ==>
                  DecLoop(desc, EncTag(WT_STRING, f.tag) + (Prefixed(EncItems(f, items).value) + tail), st) ==
                  if |EncItems(f, items).value| >= TWO32 then None
                  else DecLoop(desc, tail, Further(desc, i, st, Filled(f, a, items))))
  {
    var f := desc.fields[i];
    PackedDecodes(f, items, a);
    var e := EncItems(f, items).value;
    if |e| < TWO63 {
      PrefixDecodes(e, tail);
      ArrayField(desc, i, WT_STRING, Prefixed(e) + tail, st, a);
    }
  }

  lemma PackedArrayDecodes(desc: Desc, i: nat, items: seq<Val>, tail: seq<byte>, st: State)
    requires SchemaOk(desc) && i < |desc.fields| && ArrayOk(desc.fields[i], items) && desc.fields[i].Packable()
    requires Midway(desc, i, st, EmptyArray(desc.fields[i]))
    ensures var f := desc.fields[i];
            && EncItems(f, items).Some?
            && ArrayDecoded(desc, i, items, tail, st,
                 Some(EncTag(WT_STRING, f.tag) + Prefixed(EncItems(f, items).value)),
                            |EncItems(f, items).value| < TWO32)
  {
    var f := desc.fields[i];
    FilledWhole(f, items);
    PackedArrayField(desc, i, items, tail, st, EmptyArray(f));
    assert BackItems(f, items) == items;
    var e, tag := Prefixed(EncItems(f, items).value), EncTag(WT_STRING, f.tag);
    assert tag + e + tail == tag + (e + tail);
  }

  lemma {:induction false} TaggedArrayDecodes(desc: Desc, i: nat, items: seq<Val>, tail: seq<byte>, st: State)
    requires SchemaOk(desc) && i < |desc.fields| && ArrayOk(desc.fields[i], items) && items != []
    requires Midway(desc, i, st, EmptyArray(desc.fields[i]))
    ensures var f := desc.fields[i]; ArrayDecoded(desc, i, items, tail, st, EncTagged(f, items), FitAll(f, items))
    decreases desc.fields[i], 6
  {
    var f := desc.fields[i];
    FilledWhole(f, items);
    FilledWhole(f, BackItems(f, items));
    TaggedDecodes(desc, i, items, tail, st, EmptyArray(f));
  }

  lemma {:induction false} ArrayDecodes(desc: Desc, i: nat, items: seq<Val>, word: nat, tail: seq<byte>, st: State)
    requires SchemaOk(desc) && i < |desc.fields| && ArrayOk(desc.fields[i], items) && items != []
    requires Midway(desc, i, st, EmptyArray(desc.fields[i]))
    ensures var f := desc.fields[i];
              ArrayDecoded(desc, i, items, tail, st, EncArray(f, items), FitsSlot(f, Many(items, word)))
    decreases desc.fields[i], 7
  {
    var f := desc.fields[i];
    ArrayParts(f, items, word);
    if f.Packable() {
      PackedArrayDecodes(desc, i, items, tail, st);
    } else {
      TaggedArrayDecodes(desc, i, items, tail, st);
    }
  }

  lemma ArrayParts(f: Field, items: seq<Val>, word: nat)
    requires ArrayOk(f, items) && items != []
    ensures if f.Packable() then
              && BackItems(f, items) == items
              && (EncItems(f, items).Some? ==>
                    && EncArray(f, items) == Some(EncTag(WT_STRING, f.tag) + Prefixed(EncItems(f, items).value))
                    && (FitsSlot(f, Many(items, word)) <==> |EncItems(f, items).value| < TWO32))
            else EncArray(f, items) == EncTagged(f, items) && (FitsSlot(f, Many(items, word)) <==> FitAll(f, items))
  {
    if f.Packable() {
      assert BackItems(f, items) == items;
    }
  }

  // ----- messages -----

  lemma {:induction false} UnionSlot(desc: Desc, i: nat)
    requires i < |desc.fields|
    ensures SlotOf(desc, SlotOf(desc, i)) == SlotOf(desc, i)
    ensures if desc.fields[i].htype.Oneof? then desc.fields[SlotOf(desc, i)].htype.Oneof? else SlotOf(desc, i) == i
  {
    if i > 0 && SharesUnion(desc.fields[i - 1], desc.fields[i]) {
      UnionSlot(desc, i - 1);
    }
  }

  /** Field `i`'s slot is well-formed for it. */
  predicate SlotOk(f: Field, s: Slot) {
    match f.htype
    case Required => s.Single? && ValOk(f, s.val)
    case Optional => s.Single? && (f.sizeOffset == 0 || s.has ==> ValOk(f, s.val))
    case Repeated => s.Many? && ArrayOk(f, s.items)
    case Oneof => s.Chosen? && (s.which == f.tag ==> ValOk(f, s.val))
  }

  lemma SlotsOk(desc: Desc, slots: seq<Slot>, i: nat)
    requires SchemaOk(desc) && MsgOk(desc, slots) && i < |desc.fields|
    ensures SlotOk(desc.fields[i], slots[SlotOf(desc, i)])
  {
    UnionSlot(desc, i);
  }

  lemma MixedBefore(desc: Desc, slots: seq<Slot>, i: nat)
    requires i < |desc.fields|
    ensures var f, before := desc.fields[i], Mixed(desc, slots, i)[SlotOf(desc, i)];
            !f.htype.Oneof? ==> before == DefaultSlot(f)
  {
    UnionSlot(desc, i);
  }

  lemma UnionShape(desc: Desc, slots: seq<Slot>, i: nat)
    requires SchemaOk(desc) && MsgOk(desc, slots) && i < |desc.fields| && desc.fields[i].htype.Oneof?
    ensures Mixed(desc, slots, i)[SlotOf(desc, i)].Chosen?
  {
    var k := SlotOf(desc, i);
    UnionSlot(desc, i);
    assert slots[k].Chosen?;
    if slots[k].which != 0 {
      var j :| k <= j < |desc.fields| && Chooses(desc, k, slots[k].which, j) && ValOk(desc.fields[j], slots[k].val);
      ChosenMember(desc, slots, i, k, j);
      assert BackSlot(desc.fields[j], slots[k]).Chosen?;
    } else {
      assert MixedSlot(desc, slots, i, k) == DefaultSlot(desc.fields[k]);
    }
  }

  /** One more field decoded: its slot is settled if it was written, and nothing else changes. */
  lemma MixedStep(desc: Desc, slots: seq<Slot>, i: nat)
    requires SchemaOk(desc) && MsgOk(desc, slots) && i < |desc.fields|
    ensures var f, k := desc.fields[i], SlotOf(desc, i);
            Mixed(desc, slots, i + 1) ==
            if Written(f, slots[k]) then Mixed(desc, slots, i)[k := BackSlot(f, slots[k])] else Mixed(desc, slots, i)
  {
    var f, k := desc.fields[i], SlotOf(desc, i);
    var before, after := Mixed(desc, slots, i), Mixed(desc, slots, i + 1);
    var expected := if Written(f, slots[k]) then before[k := BackSlot(f, slots[k])] else before;
    forall k' | 0 <= k' < |desc.fields|
      ensures after[k'] == expected[k']
    {
      MixedStepAt(desc, slots, i, k');
      assert before[k'] == MixedSlot(desc, slots, i, k') && after[k'] == MixedSlot(desc, slots, i + 1, k');
    }
    assert after == expected;
  }

  lemma MixedStepAt(desc: Desc, slots: seq<Slot>, i: nat, k: nat)
    requires SchemaOk(desc) && MsgOk(desc, slots) && i < |desc.fields| && k < |desc.fields|
    ensures MixedSlot(desc, slots, i + 1, k) ==
            if k == SlotOf(desc, i) && Written(desc.fields[i], slots[k]) then BackSlot(desc.fields[i], slots[k])
            else MixedSlot(desc, slots, i, k)
  {
    UnionSlot(desc, i);
    if SlotOf(desc, k) == k {
      if desc.fields[k].htype.Oneof? {
        MixedUnion(desc, slots, i, k);
      } else if k == i {
        MixedSingle(desc, slots, i);
      }
    }
  }

  lemma MixedSingle(desc: Desc, slots: seq<Slot>, i: nat)
    requires SchemaOk(desc) && MsgOk(desc, slots) && i < |desc.fields| && !desc.fields[i].htype.Oneof?
    ensures !Written(desc.fields[i], slots[i]) ==> BackSlot(desc.fields[i], slots[i]) == DefaultSlot(desc.fields[i])
  {
    var f, s := desc.fields[i], slots[i];
    UnionSlot(desc, i);
    SlotsOk(desc, slots, i);
    if !Written(f, s) && f.htype.Repeated? {
      assert BackSlot(f, s).items == DefaultSlot(f).items;
    }
  }

  lemma SameTag(desc: Desc, i: nat, j: nat)
    requires TagsDistinct(desc) && i < |desc.fields| && j < |desc.fields| && desc.fields[i].tag == desc.fields[j].tag
    ensures i == j
  {
    FirstMatch(desc, i, 0);
    FirstMatch(desc, j, 0);
  }

  lemma MixedUnion(desc: Desc, slots: seq<Slot>, i: nat, k: nat)
    requires SchemaOk(desc) && MsgOk(desc, slots) && i < |desc.fields|
    requires k < |desc.fields| && SlotOf(desc, k) == k && desc.fields[k].htype.Oneof?
    ensures MixedSlot(desc, slots, i + 1, k) ==
            if k == SlotOf(desc, i) && Written(desc.fields[i], slots[k]) then BackSlot(desc.fields[i], slots[k])
            else MixedSlot(desc, slots, i, k)
  {
    UnionSlot(desc, i);
    assert slots[k].Chosen?;
    if slots[k].which != 0 {
      var j :| k <= j < |desc.fields| && Chooses(desc, k, slots[k].which, j) && ValOk(desc.fields[j], slots[k].val);
      ChosenMember(desc, slots, i, k, j);
    } else {
      assert !(k == SlotOf(desc, i) && Written(desc.fields[i], slots[k]));
    }
  }

  lemma ChosenMember(desc: Desc, slots: seq<Slot>, i: nat, k: nat, j: nat)
    requires TagsDistinct(desc) && i < |desc.fields| && |slots| == |desc.fields|
    requires k < |desc.fields| && SlotOf(desc, k) == k && desc.fields[k].htype.Oneof? && slots[k].Chosen?
    requires j < |desc.fields| && slots[k].which != 0 && Chooses(desc, k, slots[k].which, j)
    ensures MixedSlot(desc, slots, i, k) ==
              if j < i then BackSlot(desc.fields[j], slots[k]) else DefaultSlot(desc.fields[k])
    ensures MixedSlot(desc, slots, i + 1, k) ==
              if j <= i then BackSlot(desc.fields[j], slots[k]) else DefaultSlot(desc.fields[k])
    ensures j == i <==> k == SlotOf(desc, i) && desc.fields[i].htype.Oneof? && Written(desc.fields[i], slots[k])
  {
    FirstMatch(desc, j, 0);
    if desc.fields[i].tag == slots[k].which {
      SameTag(desc, i, j);
    }
  }

  function SeenBefore(desc: Desc, i: nat): set<nat>
    requires i <= |desc.fields|
  {
    if i == 0 then {} else MarkSeen(desc, i - 1, SeenBefore(desc, i - 1))
  }

  lemma {:induction false} SeesRequired(desc: Desc, i: nat, j: nat)
    requires j < i <= |desc.fields| && desc.fields[j].htype.Required? && ReqIndex(desc, j) < MAX_REQUIRED_FIELDS
    ensures ReqIndex(desc, j) in SeenBefore(desc, i)
  {
    if j < i - 1 {
      SeesRequired(desc, i - 1, j);
    }
  }

  /** The decoder has come to field `i`. */
  predicate At(desc: Desc, slots: seq<Slot>, i: nat, st: State)
    requires i <= |desc.fields|
  {
    && st.slots == Mixed(desc, slots, i) && st.seen == SeenBefore(desc, i)
    && (st.fixedField.Some? ==> st.fixedField.value < i) && FixedComplete(desc, st)
  }

  /** The state with field `i` decoded. */
  function Passed(desc: Desc, slots: seq<Slot>, i: nat, st: State): State
    requires i < |desc.fields|
  {
    if |slots| == |desc.fields| && desc.fields[i].FixedCount() && Written(desc.fields[i], slots[i]) then
      State(Mixed(desc, slots, i + 1), Some(i), desc.fields[i].arraySize, SeenBefore(desc, i + 1))
    else st.(slots := Mixed(desc, slots, i + 1), seen := SeenBefore(desc, i + 1))
  }

  lemma {:induction false} SingleField(desc: Desc, slots: seq<Slot>, i: nat, tail: seq<byte>, st: State)
    requires SchemaOk(desc) && MsgOk(desc, slots) && i < |desc.fields| && At(desc, slots, i, st)
    requires !desc.fields[i].htype.Repeated? && Written(desc.fields[i], slots[SlotOf(desc, i)])
    ensures var f, s := desc.fields[i], slots[SlotOf(desc, i)];
            && EncField(f, s).Some?
            && (|EncField(f, s).value| < TWO63 ==>
                  DecLoop(desc, EncField(f, s).value + tail, st) ==
                  if FitsSlot(f, s) then DecLoop(desc, tail, Passed(desc, slots, i, st)) else None)
    decreases desc.fields[i], 8
  {
    var f, k := desc.fields[i], SlotOf(desc, i);
    var v := slots[k].val;
    SlotsOk(desc, slots, i);
    UnionSlot(desc, i);
    MixedStep(desc, slots, i);
    MixedBefore(desc, slots, i);
    if f.htype.Oneof? {
      UnionShape(desc, slots, i);
    }
    ValDecodes(f, v, tail, Num(0));
    assert EncField(f, slots[k]) == Some(EncTag(f.WireType(), f.tag) + EncVal(f, v).value);
    if |EncField(f, slots[k]).value| < TWO63 {
      var next := SingleDecodes(desc, i, v, tail, st);
      assert PutSingle(f, st.slots[k], BackVal(f, v)) == BackSlot(f, slots[k]);
      assert next == Passed(desc, slots, i, st);
    }
  }

  lemma {:induction false} ArrayFieldDecodes(desc: Desc, slots: seq<Slot>, i: nat, tail: seq<byte>, st: State)
    requires SchemaOk(desc) && MsgOk(desc, slots) && i < |desc.fields| && At(desc, slots, i, st)
    requires desc.fields[i].htype.Repeated? && Written(desc.fields[i], slots[SlotOf(desc, i)])
    ensures var f, s := desc.fields[i], slots[SlotOf(desc, i)];
            && EncField(f, s).Some?
            && (|EncField(f, s).value| < TWO63 ==>
                  DecLoop(desc, EncField(f, s).value + tail, st) ==
                  if FitsSlot(f, s) then DecLoop(desc, tail, Passed(desc, slots, i, st)) else None)
    decreases desc.fields[i], 8
  {
    var f := desc.fields[i];
    UnionSlot(desc, i);
    SlotsOk(desc, slots, i);
    MixedStep(desc, slots, i);
    MixedBefore(desc, slots, i);
    var items := slots[i].items;
    ArrayDecodes(desc, i, items, slots[i].word, tail, st);
    assert BackSlot(f, slots[i]) == Listed(f, BackItems(f, items));
    assert Further(desc, i, st, Array(BackItems(f, items), |items|)) == Passed(desc, slots, i, st);
  }

  lemma {:induction false} FieldDecodes(desc: Desc, slots: seq<Slot>, i: nat, tail: seq<byte>, st: State)
    requires SchemaOk(desc) && MsgOk(desc, slots) && i < |desc.fields| && At(desc, slots, i, st)
    ensures var f, s := desc.fields[i], slots[SlotOf(desc, i)];
            && EncField(f, s).Some?
            && (|EncField(f, s).value| < TWO63 ==>
                  DecLoop(desc, EncField(f, s).value + tail, st) ==
                  if FitsSlot(f, s) then DecLoop(desc, tail, Passed(desc, slots, i, st)) else None)
    decreases desc.fields[i], 9
  {
    var f, s := desc.fields[i], slots[SlotOf(desc, i)];
    UnionSlot(desc, i);
    SlotsOk(desc, slots, i);
    if !Written(f, s) {
      MixedStep(desc, slots, i);
      assert EncField(f, s) == Some([]) && FitsSlot(f, s);
      assert [] + tail == tail;
      assert Passed(desc, slots, i, st) == st;
    } else if f.htype.Repeated? {
      ArrayFieldDecodes(desc, slots, i, tail, st);
    } else {
      SingleField(desc, slots, i, tail, st);
    }
  }

  lemma PassedAt(desc: Desc, slots: seq<Slot>, i: nat, st: State)
    requires SchemaOk(desc) && MsgOk(desc, slots) && i < |desc.fields| && At(desc, slots, i, st)
    ensures At(desc, slots, i + 1, Passed(desc, slots, i, st))
  {
    UnionSlot(desc, i);
    SlotsOk(desc, slots, i);
  }

  predicate FitsFrom(desc: Desc, slots: seq<Slot>, i: nat)
    requires |slots| == |desc.fields|
  {
    forall j :: i <= j < |desc.fields| ==> FitsSlot(desc.fields[j], slots[SlotOf(desc, j)])
  }

  lemma {:induction false} FieldsDecode(desc: Desc, slots: seq<Slot>, i: nat, st: State) returns (last: State)
    requires SchemaOk(desc) && MsgOk(desc, slots) && i <= |desc.fields| && At(desc, slots, i, st)
    ensures At(desc, slots, |desc.fields|, last)
    ensures EncFrom(desc, slots, i).Some?
    ensures |EncFrom(desc, slots, i).value| < TWO63 ==>
              DecLoop(desc, EncFrom(desc, slots, i).value, st) ==
              if FitsFrom(desc, slots, i) then Some(Loop(last, [], false)) else None
    decreases desc, 0, |desc.fields| - i
  {
    if i == |desc.fields| {
      last := st;
    } else {
      var next := Passed(desc, slots, i, st);
      PassedAt(desc, slots, i, st);
      last := FieldsDecode(desc, slots, i + 1, next);
      var tail := EncFrom(desc, slots, i + 1).value;
      FieldDecodes(desc, slots, i, tail, st);
      assert FitsFrom(desc, slots, i) <==>
             FitsSlot(desc.fields[i], slots[SlotOf(desc, i)]) && FitsFrom(desc, slots, i + 1);
    }
  }

  /** Every well-formed message has an encoding. Decoding it takes all of it and gives what was written back,
      if every length in it is below 2 to the 32, and fails otherwise. */
  lemma {:induction false} MsgDecodes(desc: Desc, slots: seq<Slot>)
    requires SchemaOk(desc) && MsgOk(desc, slots)
    ensures EncMsg(desc, slots).Some?
    ensures |EncMsg(desc, slots).value| < TWO63 ==>
              DecMsg(desc, EncMsg(desc, slots).value, Defaults(desc)) ==
              if Fits(desc, slots) then Some(Got(Back(desc, slots), [])) else None
    decreases desc, 1
  {
    var st := Start(Defaults(desc));
    assert Mixed(desc, slots, 0) == Defaults(desc);
    var last := FieldsDecode(desc, slots, 0, st);
    forall i | 0 <= i < |desc.fields| && desc.fields[i].htype.Required? && ReqIndex(desc, i) < MAX_REQUIRED_FIELDS
      ensures ReqIndex(desc, i) in last.seen
    {
      SeesRequired(desc, |desc.fields|, i);
    }
    assert RequiredSeen(desc, last.seen);
    assert Fits(desc, slots) <==> FitsFrom(desc, slots, 0);
  }

  // ----- encodings below 4 GiB -----

  lemma {:induction false} PartOfMessage(desc: Desc, slots: seq<Slot>, from: nat, i: nat)
    requires |slots| == |desc.fields| && from <= i < |desc.fields| && EncFrom(desc, slots, from).Some?
    ensures var e := EncField(desc.fields[i], slots[SlotOf(desc, i)]);
            e.Some? && |e.value| <= |EncFrom(desc, slots, from).value|
    decreases i - from
  {
    if from < i {
      PartOfMessage(desc, slots, from + 1, i);
    }
  }

  lemma {:induction false} PartOfArray(f: Field, items: seq<Val>, j: nat)
    requires j < |items| && EncTagged(f, items).Some?
    ensures EncVal(f, items[j]).Some? && |EncVal(f, items[j]).value| <= |EncTagged(f, items).value|
    decreases |items|
  {
    if j > 0 {
      PartOfArray(f, items[1..], j - 1);
    }
  }

  lemma {:induction false} SmallValFits(f: Field, v: Val)
    requires FieldOk(f) && ValOk(f, v) && EncVal(f, v).Some? && |EncVal(f, v).value| < TWO32
    ensures FitsVal(f, v)
    decreases f, 0
  {
    if f.ltype.SubMsg? {
      SmallFits(f.ltype.desc, v.slots);
    }
  }

  lemma {:induction false} SmallSlotFits(f: Field, s: Slot)
    requires FieldOk(f) && SlotOk(f, s) && EncField(f, s).Some? && |EncField(f, s).value| < TWO32
    ensures FitsSlot(f, s)
    decreases f, 1
  {
    if f.htype.Repeated? && !f.Packable() {
      forall j | 0 <= j < |s.items|
        ensures FitsVal(f, s.items[j])
      {
        PartOfArray(f, s.items, j);
        SmallValFits(f, s.items[j]);
      }
    } else if !f.htype.Repeated? && Written(f, s) {
      SmallValFits(f, s.val);
    }
  }

  /** A length is no longer than what it is a part of. */
  lemma {:induction false} SmallFits(desc: Desc, slots: seq<Slot>)
    requires SchemaOk(desc) && MsgOk(desc, slots) && EncMsg(desc, slots).Some? && |EncMsg(desc, slots).value| < TWO32
    ensures Fits(desc, slots)
    decreases desc
  {
    forall i | 0 <= i < |desc.fields|
      ensures FitsSlot(desc.fields[i], slots[SlotOf(desc, i)])
    {
      PartOfMessage(desc, slots, 0, i);
      SlotsOk(desc, slots, i);
      SmallSlotFits(desc.fields[i], slots[SlotOf(desc, i)]);
    }
  }
}
