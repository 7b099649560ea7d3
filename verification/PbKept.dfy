/** When the message that comes back is the message that was sent. */
module PbKept {
  import opened Wrappers
  import opened PbWire
  import opened PbSchema
  import opened PbDecodeSpec
  import opened PbRoundTrip

  // ----- the same message, with unused storage set to defaults -----

  /** The field whose value slot `k` holds, if it holds any. */
  function HeldBy(desc: Desc, slots: seq<Slot>, k: nat): (j: Option<nat>)
    requires k < |desc.fields|
    ensures j.Some? ==> j.value < |desc.fields| && k < |slots|
  {
    if |slots| != |desc.fields| || SlotOf(desc, k) != k then None
    else if !desc.fields[k].htype.Oneof? then Some(k)
    else if !slots[k].Chosen? || slots[k].which == 0 then None
    else FindFrom(desc, slots[k].which, 0)
  }

  function CleanVal(f: Field, v: Val): Val
    decreases f, 0
  {
    if f.ltype.SubMsg? && v.Msg? then Msg(Clean(f.ltype.desc, v.slots)) else v
  }

  function CleanSlot(f: Field, s: Slot): Slot
    decreases f, 1
  {
    match (f.htype, s)
    case (Required, Single(_, v)) => Single(false, CleanVal(f, v))
    case (Optional, Single(has, v)) =>
      if f.sizeOffset == 0 then Single(false, CleanVal(f, v))
      else if has then Single(true, CleanVal(f, v))
      else DefaultSlot(f)
    case (Repeated, Many(items, _)) => Listed(f, seq(|items|, i requires 0 <= i < |items| => CleanVal(f, items[i])))
    case (Oneof, Chosen(_, v)) => Chosen(f.tag, CleanVal(f, v))
    case _ => s
  }

  function CleanAt(desc: Desc, slots: seq<Slot>, k: nat): Slot
    requires k < |desc.fields|
    decreases desc, 0
  {
    var j := HeldBy(desc, slots, k);
    if j.Some? then CleanSlot(desc.fields[j.value], slots[k]) else DefaultSlot(desc.fields[k])
  }

  function Clean(desc: Desc, slots: seq<Slot>): (r: seq<Slot>)
    ensures |r| == |desc.fields|
    ensures forall k :: 0 <= k < |r| ==> r[k] == CleanAt(desc, slots, k)
    decreases desc, 1
  {
    seq(|desc.fields|, k requires 0 <= k < |desc.fields| => CleanAt(desc, slots, k))
  }

  // ----- what the decoder leaves of a field that does not occur -----

  predicate InitialVal(f: Field, v: Val)
    decreases f, 0
  {
    if f.ltype.SubMsg? then v.Msg? && Initial(f.ltype.desc, v.slots) else v == DefaultVal(f)
  }

  predicate InitialItem(f: Field, v: Val)
    decreases f, 0
  {
    if f.ltype.SubMsg? then v.Msg? && Initial(f.ltype.desc, v.slots) else v == ZeroItem(f)
  }

  predicate InitialSlot(f: Field, s: Slot)
    decreases f, 1
  {
    match f.htype
    case Required => s.Single? && InitialVal(f, s.val)
    case Optional => s.Single? && if f.sizeOffset == 0 then InitialVal(f, s.val) else !s.has
    case Repeated =>
      s.Many? && if f.FixedCount() then forall i :: 0 <= i < |s.items| ==> InitialItem(f, s.items[i]) else s.items == []
    case Oneof => s.Chosen? && s.which == 0
  }

  /** Every field holds its default, and every entry of an array of fixed count zero. */
  predicate Initial(desc: Desc, slots: seq<Slot>)
    decreases desc
  {
    && |slots| == |desc.fields|
    && forall k :: 0 <= k < |desc.fields| && SlotOf(desc, k) == k ==> InitialSlot(desc.fields[k], slots[k])
  }

  // ----- what is kept -----

  predicate KeptVal(f: Field, v: Val)
    decreases f, 0
  {
    f.ltype.SubMsg? && v.Msg? ==> Kept(f.ltype.desc, v.slots)
  }

  predicate KeptSlot(f: Field, s: Slot)
    decreases f, 1
  {
    match (f.htype, s)
    case (Required, Single(_, v)) => KeptVal(f, v)
    case (Optional, Single(has, v)) =>
      if Written(f, s) then KeptVal(f, v) else f.sizeOffset == 0 ==> InitialVal(f, v)
    case (Repeated, Many(items, _)) => forall i :: 0 <= i < |items| ==> KeptVal(f, items[i])
    case (Oneof, Chosen(_, v)) => KeptVal(f, v)
    case _ => true
  }

  /** Every proto3 singular field is either written, or holds what the decoder initialises it to. */
  predicate Kept(desc: Desc, slots: seq<Slot>)
    decreases desc
  {
    forall k :: 0 <= k < |desc.fields| && HeldBy(desc, slots, k).Some? ==>
      KeptSlot(desc.fields[HeldBy(desc, slots, k).value], slots[k])
  }

  // ----- the two agree -----

  lemma Held(desc: Desc, slots: seq<Slot>, k: nat)
    requires SchemaOk(desc) && MsgOk(desc, slots) && k < |desc.fields|
    ensures var j := HeldBy(desc, slots, k);
            && MixedSlot(desc, slots, |desc.fields|, k) ==
               (if j.Some? then BackSlot(desc.fields[j.value], slots[k]) else DefaultSlot(desc.fields[k]))
            && (j.Some? ==> SlotOk(desc.fields[j.value], slots[k]) && FieldOk(desc.fields[j.value]))
            && (j.Some? && desc.fields[j.value].htype.Oneof? ==> slots[k].which == desc.fields[j.value].tag)
            && (j.Some? <==> SlotOf(desc, k) == k && (desc.fields[k].htype.Oneof? ==> slots[k].which != 0))
  {
    if SlotOf(desc, k) == k && desc.fields[k].htype.Oneof? && slots[k].which != 0 {
      var j :| k <= j < |desc.fields| && Chooses(desc, k, slots[k].which, j) && ValOk(desc.fields[j], slots[k].val);
      FirstMatch(desc, j, 0);
    }
  }

  lemma {:induction false} InitialValExactly(f: Field, v: Val)
    requires FieldOk(f) && ValOk(f, v)
    ensures CleanVal(f, v) == DefaultVal(f) <==> InitialVal(f, v)
    decreases f, 0
  {
    if f.ltype.SubMsg? {
      InitialExactly(f.ltype.desc, v.slots);
    }
  }

  lemma {:induction false} InitialItemExactly(f: Field, v: Val)
    requires FieldOk(f) && ValOk(f, v)
    ensures CleanVal(f, v) == ZeroItem(f) <==> InitialItem(f, v)
    decreases f, 0
  {
    if f.ltype.SubMsg? {
      InitialExactly(f.ltype.desc, v.slots);
    }
  }

  lemma {:induction false} InitialArrayExactly(f: Field, s: Slot)
    requires FieldOk(f) && SlotOk(f, s) && f.htype.Repeated?
    ensures CleanSlot(f, s) == DefaultSlot(f) <==> InitialSlot(f, s)
    decreases f, 1
  {
    var clean, initial := CleanSlot(f, s).items, DefaultSlot(f).items;
    forall i | 0 <= i < |s.items|
      ensures clean[i] == ZeroItem(f) <==> InitialItem(f, s.items[i])
    {
      InitialItemExactly(f, s.items[i]);
    }
    assert CleanSlot(f, s) == DefaultSlot(f) <==> clean == initial;
    if f.FixedCount() && forall i :: 0 <= i < |s.items| ==> InitialItem(f, s.items[i]) {
      assert clean == initial;
    }
  }

  lemma {:induction false} InitialSlotExactly(f: Field, s: Slot)
    requires FieldOk(f) && SlotOk(f, s) && !f.htype.Oneof?
    ensures CleanSlot(f, s) == DefaultSlot(f) <==> InitialSlot(f, s)
    decreases f, 2
  {
    match f.htype
    case Repeated => InitialArrayExactly(f, s);
    case Required => InitialValExactly(f, s.val);
    case Optional =>
      if f.sizeOffset == 0 {
        InitialValExactly(f, s.val);
      }
  }

  lemma {:induction false} InitialExactly(desc: Desc, slots: seq<Slot>)
    requires SchemaOk(desc) && MsgOk(desc, slots)
    ensures Clean(desc, slots) == Defaults(desc) <==> Initial(desc, slots)
    decreases desc
  {
    forall k | 0 <= k < |desc.fields|
      ensures CleanAt(desc, slots, k) == DefaultSlot(desc.fields[k]) <==>
              (SlotOf(desc, k) == k ==> InitialSlot(desc.fields[k], slots[k]))
    {
      Held(desc, slots, k);
      if SlotOf(desc, k) == k && !desc.fields[k].htype.Oneof? {
        InitialSlotExactly(desc.fields[k], slots[k]);
      }
    }
    if Initial(desc, slots) {
      assert Clean(desc, slots) == Defaults(desc);
    }
  }

  lemma {:induction false} ValKeptExactly(f: Field, v: Val)
    requires FieldOk(f) && ValOk(f, v)
    ensures BackVal(f, v) == CleanVal(f, v) <==> KeptVal(f, v)
    decreases f, 0
  {
    if f.ltype.SubMsg? {
      KeptExactly(f.ltype.desc, v.slots);
    }
  }

  lemma {:induction false} ArrayKeptExactly(f: Field, s: Slot)
    requires FieldOk(f) && SlotOk(f, s) && f.htype.Repeated?
    ensures BackSlot(f, s) == CleanSlot(f, s) <==> KeptSlot(f, s)
    decreases f, 1
  {
    var back, clean := BackSlot(f, s).items, CleanSlot(f, s).items;
    forall i | 0 <= i < |s.items|
      ensures back[i] == clean[i] <==> KeptVal(f, s.items[i])
    {
      ValKeptExactly(f, s.items[i]);
    }
    assert BackSlot(f, s) == CleanSlot(f, s) <==> back == clean;
    if KeptSlot(f, s) {
      assert back == clean;
    }
  }

  lemma {:induction false} SlotKeptExactly(f: Field, s: Slot)
    requires FieldOk(f) && SlotOk(f, s) && (f.htype.Oneof? ==> s.which == f.tag)
    ensures BackSlot(f, s) == CleanSlot(f, s) <==> KeptSlot(f, s)
    decreases f, 2
  {
    match f.htype
    case Repeated => ArrayKeptExactly(f, s);
    case Optional =>
      if Written(f, s) {
        ValKeptExactly(f, s.val);
      } else if f.sizeOffset == 0 {
        InitialValExactly(f, s.val);
      }
    case _ => ValKeptExactly(f, s.val);
  }

  lemma {:induction false} KeptExactly(desc: Desc, slots: seq<Slot>)
    requires SchemaOk(desc) && MsgOk(desc, slots)
    ensures Back(desc, slots) == Clean(desc, slots) <==> Kept(desc, slots)
    decreases desc
  {
    forall k | 0 <= k < |desc.fields|
      ensures var j := HeldBy(desc, slots, k);
              MixedSlot(desc, slots, |desc.fields|, k) == CleanAt(desc, slots, k) <==>
              (j.Some? ==> KeptSlot(desc.fields[j.value], slots[k]))
    {
      Held(desc, slots, k);
      var j := HeldBy(desc, slots, k);
      if j.Some? {
        SlotKeptExactly(desc.fields[j.value], slots[k]);
      }
    }
    BackIsMixed(desc, slots);
    if Kept(desc, slots) {
      assert Back(desc, slots) == Clean(desc, slots);
    }
  }

  lemma BackIsMixed(desc: Desc, slots: seq<Slot>)
    ensures forall k :: 0 <= k < |desc.fields| ==> Back(desc, slots)[k] == MixedSlot(desc, slots, |desc.fields|, k)
  {
    assert Back(desc, slots) == Mixed(desc, slots, |desc.fields|);
  }

  /** Decoding the encoding of a message gives back that message, and leaves nothing, if and only if every
      length in it fits, and every singular field in it is written or holds what the decoder initialises it
      to. */
  lemma RoundTrip(desc: Desc, slots: seq<Slot>)
    requires SchemaOk(desc) && MsgOk(desc, slots)
    ensures EncMsg(desc, slots).Some?
    ensures |EncMsg(desc, slots).value| < TWO63 ==>
              (Decode(desc, EncMsg(desc, slots).value) == Some(Got(Clean(desc, slots), [])) <==>
               Fits(desc, slots) && Kept(desc, slots))
  {
    MsgDecodes(desc, slots);
    KeptExactly(desc, slots);
  }

  // ----- schemas that keep every message -----

  /** The field has no default of its own, or it is the zero value. */
  predicate ZeroDefault(f: Field) {
    f.ltype.SubMsg? || f.default.None? || f.default == Some(ZeroItem(f))
  }

  predicate PlainSingular(f: Field)
    decreases f, 0
  {
    f.Singular() ==> ZeroDefault(f) && (f.ltype.SubMsg? ==> Countable(f.ltype.desc))
  }

  /** The check for default values comes across no array of fixed count here. */
  predicate Countable(desc: Desc)
    decreases desc
  {
    forall i :: 0 <= i < |desc.fields| ==> !desc.fields[i].FixedCount() && PlainSingular(desc.fields[i])
  }

  predicate PlainField(f: Field)
    decreases f, 1
  {
    PlainSingular(f) && (f.ltype.SubMsg? ==> Plain(f.ltype.desc))
  }

  /** Singular fields default to zero, and singular submessages hold no array of fixed count. */
  predicate Plain(desc: Desc)
    decreases desc
  {
    forall i :: 0 <= i < |desc.fields| ==> PlainField(desc.fields[i])
  }

  lemma {:induction false} AllDefaultAt(desc: Desc, slots: seq<Slot>, i: nat, k: nat)
    requires |slots| == |desc.fields| && i <= k < |desc.fields| && AllDefault(desc, slots, i)
    ensures IsDefault(desc.fields[k], slots[SlotOf(desc, k)])
    decreases k - i
  {
    if i < k {
      AllDefaultAt(desc, slots, i + 1, k);
    }
  }

  lemma {:induction false} SingularIsInitial(f: Field, s: Slot)
    requires FieldOk(f) && SlotOk(f, s) && f.Singular() && PlainSingular(f) && IsDefault(f, s)
    ensures InitialVal(f, s.val)
    decreases f, 0
  {
    match f.ltype
    case SubMsg(sub) => DefaultIsInitial(sub, s.val.slots);
    case FixedBytes => assert s.val.b == [] == Zeros(f.dataSize);
    case _ =>
  }

  /** What the check takes for default values, the decoder gives back. */
  lemma {:induction false} DefaultIsInitial(desc: Desc, slots: seq<Slot>)
    requires SchemaOk(desc) && MsgOk(desc, slots) && Countable(desc) && AllDefault(desc, slots, 0)
    ensures Initial(desc, slots)
    decreases desc
  {
    forall k | 0 <= k < |desc.fields| && SlotOf(desc, k) == k
      ensures InitialSlot(desc.fields[k], slots[k])
    {
      AllDefaultAt(desc, slots, 0, k);
      SlotsOk(desc, slots, k);
      if desc.fields[k].Singular() {
        SingularIsInitial(desc.fields[k], slots[k]);
      }
    }
  }

  lemma {:induction false} PlainValKept(f: Field, v: Val)
    requires FieldOk(f) && PlainField(f) && ValOk(f, v)
    ensures KeptVal(f, v)
    decreases f, 0
  {
    if f.ltype.SubMsg? {
      PlainKept(f.ltype.desc, v.slots);
    }
  }

  lemma {:induction false} PlainSlotKept(f: Field, s: Slot)
    requires FieldOk(f) && PlainField(f) && SlotOk(f, s) && (f.htype.Oneof? ==> s.which == f.tag)
    ensures KeptSlot(f, s)
    decreases f, 1
  {
    match f.htype
    case Repeated =>
      forall i | 0 <= i < |s.items|
        ensures KeptVal(f, s.items[i])
      {
        PlainValKept(f, s.items[i]);
      }
    case Optional =>
      if Written(f, s) {
        PlainValKept(f, s.val);
      } else if f.Singular() {
        SingularIsInitial(f, s);
      }
    case _ => PlainValKept(f, s.val);
  }

  /** Under such a schema, every message is kept. */
  lemma {:induction false} PlainKept(desc: Desc, slots: seq<Slot>)
    requires SchemaOk(desc) && Plain(desc) && MsgOk(desc, slots)
    ensures Kept(desc, slots)
    decreases desc
  {
    forall k | 0 <= k < |desc.fields| && HeldBy(desc, slots, k).Some?
      ensures KeptSlot(desc.fields[HeldBy(desc, slots, k).value], slots[k])
    {
      Held(desc, slots, k);
      PlainSlotKept(desc.fields[HeldBy(desc, slots, k).value], slots[k]);
    }
  }

  /** Under such a schema, every message with an encoding below 4 GiB comes back. */
  lemma PlainRoundTrip(desc: Desc, slots: seq<Slot>)
    requires SchemaOk(desc) && Plain(desc) && MsgOk(desc, slots)
    ensures EncMsg(desc, slots).Some?
    ensures |EncMsg(desc, slots).value| < TWO32 ==>
              Decode(desc, EncMsg(desc, slots).value) == Some(Got(Clean(desc, slots), []))
  {
    RoundTrip(desc, slots);
    PlainKept(desc, slots);
    if |EncMsg(desc, slots).value| < TWO32 {
      SmallFits(desc, slots);
    }
  }

  // ----- messages that do not come back -----

  lemma NothingDecodes(desc: Desc)
    requires forall i :: 0 <= i < |desc.fields| ==> !desc.fields[i].htype.Required?
    ensures Decode(desc, []) == Some(Got(Defaults(desc), []))
  {
  }

  lemma OneFieldEncodes(desc: Desc, slots: seq<Slot>)
    requires |desc.fields| == 1 && |slots| == 1
    ensures EncMsg(desc, slots) == EncField(desc.fields[0], slots[0])
  {
    var e := EncField(desc.fields[0], slots[0]);
    assert EncFrom(desc, slots, 1) == Some([]);
    assert e.Some? ==> e.value + [] == e.value;
  }

  /** A singular field that is initialised to five. */
  function StartsAtFive(): Desc {
    Desc([Field(1, Optional, Varint, 0, 0, 4, 0, Some(Num(5)))])
  }

  /** A zero in it is not written, and decodes to five. */
  lemma ZeroBecomesFive()
    ensures var desc, slots := StartsAtFive(), [Single(false, Num(0))];
            && SchemaOk(desc) && MsgOk(desc, slots) && !Kept(desc, slots)
            && EncMsg(desc, slots) == Some([]) && Decode(desc, []) == Some(Got([Single(false, Num(5))], []))
  {
    var desc, slots := StartsAtFive(), [Single(false, Num(0))];
    NothingDecodes(desc);
    assert Defaults(desc) == [Single(false, Num(5))];
    OneFieldEncodes(desc, slots);
    assert HeldBy(desc, slots, 0) == Some(0);
  }

  /** An array of two 32-bit numbers, without a counter. */
  function Two(): Field {
    Field(1, Repeated, Fixed32, 0, 0, 4, 2, None)
  }

  function Pair(): Desc {
    Desc([Two()])
  }

  /** A singular submessage that holds such an array. */
  function HoldsPair(): Desc {
    Desc([Field(1, Optional, SubMsg(Pair()), 0, 0, 8, 0, None)])
  }

  function PairSlots(x: int, y: int): seq<Slot> {
    [Single(false, Msg([Listed(Two(), [Num(x), Num(y)])]))]
  }

  /** The check takes the first number for the count: a pair is lost exactly when that is zero and the
      other is not, and comes back as two zeros. */
  lemma PairLost(x: int, y: int)
    requires 0 <= x < TWO32 && 0 <= y < TWO32
    ensures var desc, slots := HoldsPair(), PairSlots(x, y);
            && SchemaOk(desc) && MsgOk(desc, slots)
            && (Kept(desc, slots) <==> x != 0 || y == 0)
            && (x == 0 ==> EncMsg(desc, slots) == Some([]) && Decode(desc, []) == Some(Got(PairSlots(0, 0), [])))
  {
    var desc, slots := HoldsPair(), PairSlots(x, y);
    var f, inner := desc.fields[0], slots[0].val.slots;
    PairOk(x, y);
    assert HeldBy(desc, slots, 0) == Some(0);
    assert IsDefault(f, slots[0]) <==> AllDefault(Pair(), inner, 0);
    assert AllDefault(Pair(), inner, 0) <==> x == 0;
    assert Kept(desc, slots) <==> KeptSlot(f, slots[0]);
    NothingDecodes(desc);
    PairDefaults();
    OneFieldEncodes(desc, slots);
  }

  lemma PairOk(x: int, y: int)
    requires 0 <= x < TWO32 && 0 <= y < TWO32
    ensures var desc, slots := HoldsPair(), PairSlots(x, y);
            var inner := slots[0].val.slots;
            && SchemaOk(desc) && MsgOk(desc, slots) && Kept(Pair(), inner)
            && (Initial(Pair(), inner) <==> x == 0 && y == 0)
  {
    var inner := PairSlots(x, y)[0].val.slots;
    var items := inner[0].items;
    assert FieldOk(Two());
    assert SlotOf(Pair(), 0) == 0;
    assert InitialItem(Two(), items[0]) <==> x == 0;
    assert InitialItem(Two(), items[1]) <==> y == 0;
    assert InitialSlot(Two(), inner[0]) <==> x == 0 && y == 0;
  }

  lemma PairDefaults()
    ensures Defaults(HoldsPair()) == PairSlots(0, 0)
  {
    assert seq(2, i => ZeroItem(Two())) == [Num(0), Num(0)];
    assert Defaults(Pair()) == [Listed(Two(), [Num(0), Num(0)])];
  }

  lemma MinusOne(f: Field)
    requires f.ltype.Varint? && IntSize(f.dataSize)
    ensures var e := EncVal(f, Num(-1)); e.Some? && |e.value| == 10
  {
    PowersOfTwo();
    VarintLength(TWO64 - 1, 9);
    VarintRoundTrip(TWO64 - 1, []);
  }

  lemma {:induction false} MinusOnes(f: Field, n: nat)
    requires f.ltype.Varint? && IntSize(f.dataSize)
    ensures var e := EncItems(f, seq(n, _ => Num(-1))); e.Some? && |e.value| == 10 * n
    decreases n
  {
    var items := seq(n, _ => Num(-1));
    if n > 0 {
      MinusOne(f);
      assert items[1..] == seq(n - 1, _ => Num(-1));
      MinusOnes(f, n - 1);
    }
  }

  /** A counted array of single bytes. */
  function ByteArray(n: nat): Desc {
    Desc([Field(1, Repeated, Varint, 0, 4, 1, n, None)])
  }

  /** A half giga of bytes, all -1, takes ten times as much when it is encoded; the decoder refuses that. */
  lemma LargeArrayRefused(n: nat)
    requires n == 0x2000_0000
    ensures var desc, slots := ByteArray(n), [Many(seq(n, _ => Num(-1)), 0)];
            && SchemaOk(desc) && MsgOk(desc, slots) && !Fits(desc, slots)
            && EncMsg(desc, slots).Some? && Decode(desc, EncMsg(desc, slots).value) == None
  {
    var desc, slots := ByteArray(n), [Many(seq(n, _ => Num(-1)), 0)];
    MinusOnes(desc.fields[0], n);
    MsgDecodes(desc, slots);
    LargeArrayLength(n);
  }

  lemma LargeArrayLength(n: nat)
    requires n == 0x2000_0000
    ensures var desc, slots := ByteArray(n), [Many(seq(n, _ => Num(-1)), 0)];
            EncMsg(desc, slots).Some? ==> |EncMsg(desc, slots).value| < TWO63
  {
    var desc, slots := ByteArray(n), [Many(seq(n, _ => Num(-1)), 0)];
    var f := desc.fields[0];
    MinusOnes(f, n);
    VarintRoundTrip(8 + WT_STRING, []);
    VarintRoundTrip(10 * n, []);
    OneFieldEncodes(desc, slots);
  }
}
