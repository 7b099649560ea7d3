/** A field that occurs more than once. */
module PbAgain {
  import opened Bytes
  import opened Wrappers
  import opened PbWire
  import opened PbSchema
  import opened PbDecodeSpec
  import opened PbRoundTrip
  import opened PbMerge

  /** The value is put in place of what was there: it is not a submessage, or it is one in a union, which
      starts from its defaults. */
  predicate Replaces(f: Field) {
    !f.htype.Repeated? && (f.ltype.SubMsg? ==> f.htype.Oneof?)
  }

  /** One field with its tag. */
  function FieldBytes(f: Field, v: Val): seq<byte>
    requires EncVal(f, v).Some?
  {
    EncTag(f.WireType(), f.tag) + EncVal(f, v).value
  }

  lemma Replaced(desc: Desc, i: nat, v: Val, tail: seq<byte>, st: State) returns (next: State)
    requires SchemaOk(desc) && i < |desc.fields| && Replaces(desc.fields[i]) && ValOk(desc.fields[i], v)
    requires |st.slots| == |desc.fields| && Shape(desc.fields[i], st.slots[SlotOf(desc, i)])
    requires EncVal(desc.fields[i], v).Some? && |EncVal(desc.fields[i], v).value| < TWO63
    ensures var f, k := desc.fields[i], SlotOf(desc, i);
            && next == st.(slots := st.slots[k := PutSingle(f, st.slots[k], BackVal(f, v))],
                           seen := MarkSeen(desc, i, st.seen))
            && DecLoop(desc, FieldBytes(f, v) + tail, st) == if FitsVal(f, v) then DecLoop(desc, tail, next) else None
  {
    next := SingleDecodes(desc, i, v, tail, st);
  }

  /** A second occurrence of a field overrides the first; and so does another member of the same union. */
  lemma LastWins(desc: Desc, i: nat, v: Val, j: nat, w: Val, tail: seq<byte>, st: State)
    requires SchemaOk(desc) && i < |desc.fields| && j < |desc.fields| && SlotOf(desc, i) == SlotOf(desc, j)
    requires Replaces(desc.fields[i]) && ValOk(desc.fields[i], v) && FitsVal(desc.fields[i], v)
    requires Replaces(desc.fields[j]) && ValOk(desc.fields[j], w)
    requires EncVal(desc.fields[i], v).Some? && |EncVal(desc.fields[i], v).value| < TWO63
    requires EncVal(desc.fields[j], w).Some? && |EncVal(desc.fields[j], w).value| < TWO63
    requires |st.slots| == |desc.fields| && Shape(desc.fields[i], st.slots[SlotOf(desc, i)])
    ensures var first, second := FieldBytes(desc.fields[i], v), FieldBytes(desc.fields[j], w);
            DecLoop(desc, first + (second + tail), st) == DecLoop(desc, second + tail, st)
  {
    var f, g, k := desc.fields[i], desc.fields[j], SlotOf(desc, i);
    UnionSlot(desc, i);
    UnionSlot(desc, j);
    var first := Replaced(desc, i, v, FieldBytes(g, w) + tail, st);
    var both := Replaced(desc, j, w, tail, first);
    var second := Replaced(desc, j, w, tail, st);
    assert both.slots == second.slots;
    assert both.seen == second.seen;
  }

  /** A submessage field with these bytes in it. */
  function SubBytes(f: Field, b: seq<byte>): seq<byte> {
    EncTag(WT_STRING, f.tag) + Prefixed(b)
  }

  lemma SubValue(f: Field, b: seq<byte>, tail: seq<byte>, was: Val)
    requires f.ltype.SubMsg? && !f.htype.Repeated? && was.Msg? && |b| < TWO32
    ensures var m := DecMsg(f.ltype.desc, b, was.slots);
            DecVal(f, Prefixed(b) + tail, was) == if m.None? then None else Some(Got(Msg(m.value.value), tail))
  {
    PrefixDecodes(b, tail);
    var p := ReadPrefixed(Prefixed(b) + tail);
    assert p == Some(Got(b, tail));
  }

  lemma SubDecodes(desc: Desc, i: nat, b: seq<byte>, tail: seq<byte>, st: State)
    requires SchemaOk(desc) && i < |desc.fields| && desc.fields[i].ltype.SubMsg? && |b| < TWO32
    requires !desc.fields[i].htype.Repeated? && !desc.fields[i].htype.Oneof?
    requires |st.slots| == |desc.fields| && st.slots[i].Single? && st.slots[i].val.Msg?
    ensures var f := desc.fields[i];
            var m := DecMsg(f.ltype.desc, b, st.slots[i].val.slots);
            DecLoop(desc, SubBytes(f, b) + tail, st) ==
            if m.None? then None else DecLoop(desc, tail, Merged(desc, i, st, m.value.value))
  {
    var f := desc.fields[i];
    UnionSlot(desc, i);
    SubValue(f, b, tail, st.slots[i].val);
    var m := DecMsg(f.ltype.desc, b, st.slots[i].val.slots);
    var body := Prefixed(b) + tail;
    assert SubBytes(f, b) + tail == EncTag(WT_STRING, f.tag) + body;
    KnownField(desc, i, WT_STRING, body, st);
    var count := Noted(desc, i, st).value.fixedCount;
    var placed := DecStatic(f, WT_STRING, body, st.slots[i], count);
    assert m.None? ==> placed == None;
    assert m.Some? ==> placed == Some(Got(Placed(Merged(desc, i, st, m.value.value).slots[i], count), tail));
  }

  /** The state with these contents in submessage field `i`. */
  function Merged(desc: Desc, i: nat, st: State, sub: seq<Slot>): State
    requires i < |desc.fields| && |st.slots| == |desc.fields| && st.slots[i].Single?
  {
    var f := desc.fields[i];
    var has := st.slots[i].has || (f.htype.Optional? && f.sizeOffset != 0);
    st.(slots := st.slots[i := Single(has, Msg(sub))], seen := MarkSeen(desc, i, st.seen))
  }

  /** A second occurrence of a submessage is merged into the first: the two are decoded like one that holds the
      fields of both, if and only if they do not clash over an array of fixed count; if they do, that one is
      refused. */
  lemma SubmessagesMerge(desc: Desc, i: nat, a: seq<byte>, b: seq<byte>, tail: seq<byte>, st: State,
      then_: seq<Slot>, result: Got<seq<Slot>>)
    requires SchemaOk(desc) && i < |desc.fields| && desc.fields[i].ltype.SubMsg? && |a| + |b| < TWO32
    requires !desc.fields[i].htype.Repeated? && !desc.fields[i].htype.Oneof?
    requires |st.slots| == |desc.fields| && st.slots[i].Single? && st.slots[i].val.Msg?
    requires var sub, was := desc.fields[i].ltype.desc, st.slots[i].val.slots;
             && DecMsg(sub, a, was) == Some(Got(then_, [])) && !DecLoop(sub, a, Start(was)).value.stopped
             && DecMsg(sub, b, then_) == Some(result)
    ensures var f, sub := desc.fields[i], desc.fields[i].ltype.desc;
            var done := DecLoop(desc, tail, Merged(desc, i, st, result.value));
            && DecLoop(desc, SubBytes(f, a) + (SubBytes(f, b) + tail), st) == done
            && DecLoop(desc, SubBytes(f, a + b) + tail, st) ==
               if Clash(sub, a, b, st.slots[i].val.slots, then_) then None else done
  {
    var f, sub, was := desc.fields[i], desc.fields[i].ltype.desc, st.slots[i].val.slots;
    var next := Merged(desc, i, st, then_);
    SubDecodes(desc, i, a, SubBytes(f, b) + tail, st);
    SubDecodes(desc, i, b, tail, next);
    SubDecodes(desc, i, a + b, tail, st);
    DecodingComposes(sub, a, b, was, then_, result);
    assert Merged(desc, i, next, result.value).slots == Merged(desc, i, st, result.value).slots;
    assert Merged(desc, i, next, result.value).seen == Merged(desc, i, st, result.value).seen;
  }

  /** A zero in place of a tag ends the message, whatever follows it. */
  lemma ZeroEnds(desc: Desc, a: seq<byte>, junk: seq<byte>, slots: seq<Slot>)
    requires DecLoop(desc, a, Start(slots)).Some? && !DecLoop(desc, a, Start(slots)).value.stopped
    ensures var whole := DecMsg(desc, a, slots);
            DecMsg(desc, a + ([0] + junk), slots) == if whole.None? then None else Some(Got(whole.value.value, junk))
  {
    LoopGoesOn(desc, a, [0] + junk, Start(slots));
    Varint32RoundTrip(0, junk);
    assert EncodeVarint(0) == [0];
    assert ReadTag([0] + junk) == ZeroTag(junk);
  }

  /** The same in a submessage: the rest of its bytes is passed over. */
  lemma SubmessageEnds(desc: Desc, i: nat, a: seq<byte>, junk: seq<byte>, tail: seq<byte>, st: State)
    requires SchemaOk(desc) && i < |desc.fields| && desc.fields[i].ltype.SubMsg? && |a| + 1 + |junk| < TWO32
    requires !desc.fields[i].htype.Repeated? && !desc.fields[i].htype.Oneof?
    requires |st.slots| == |desc.fields| && st.slots[i].Single? && st.slots[i].val.Msg?
    requires var whole := DecLoop(desc.fields[i].ltype.desc, a, Start(st.slots[i].val.slots));
             whole.Some? && !whole.value.stopped
    ensures DecLoop(desc, SubBytes(desc.fields[i], a + ([0] + junk)) + tail, st) ==
            DecLoop(desc, SubBytes(desc.fields[i], a) + tail, st)
  {
    SubDecodes(desc, i, a, tail, st);
    SubDecodes(desc, i, a + ([0] + junk), tail, st);
    ZeroEnds(desc.fields[i].ltype.desc, a, junk, st.slots[i].val.slots);
  }
}
