/** Messages of a writer that knows more fields than the reader. */
module PbForeign {
  import opened Bytes
  import opened Wrappers
  import opened PbWire
  import opened PbSchema
  import opened PbDecodeSpec
  import opened PbRoundTrip
  import opened PbMerge

  // ----- skipping is the inverse of writing -----

  lemma {:induction false} SkipsVarint(w: nat, tail: seq<byte>)
    ensures SkipVarint(EncodeVarint(w) + tail) == Some(tail)
    decreases w
  {
    FirstDigit(w, tail);
    if w >= 128 {
      SkipsVarint(w / 128, tail);
    }
  }

  /** The length written in front of the value, if there is one, is below 2 to the 32. */
  predicate LengthFits(f: Field, v: Val) {
    match (f.ltype, v)
    case (SubMsg(sub), Msg(slots)) => EncMsg(sub, slots).Some? ==> |EncMsg(sub, slots).value| < TWO32
    case (_, Blob(b)) => |b| < TWO32
    case _ => true
  }

  lemma SkipsPrefixed(b: seq<byte>, tail: seq<byte>)
    requires |b| < TWO63
    ensures SkipField(WT_STRING, Prefixed(b) + tail) == if |b| < TWO32 then Some(tail) else None
  {
    PrefixDecodes(b, tail);
  }

  /** Whatever the type of the field, skipping by its wire type takes off exactly what was written for the
      value, unless it has a length that does not fit. */
  lemma SkipsValue(f: Field, v: Val, tail: seq<byte>)
    requires EncVal(f, v).Some? && |EncVal(f, v).value| < TWO63
    ensures SkipField(f.WireType(), EncVal(f, v).value + tail) == if LengthFits(f, v) then Some(tail) else None
  {
    if f.WireType() == WT_STRING {
      SkipsBlob(f, v, tail);
    } else if f.WireType() == WT_VARINT {
      SkipsNumber(f, v, tail);
    } else {
      var e := EncVal(f, v).value;
      assert (e + tail)[|e|..] == tail;
    }
  }

  lemma SkipsNumber(f: Field, v: Val, tail: seq<byte>)
    requires EncVal(f, v).Some? && f.WireType() == WT_VARINT
    ensures SkipVarint(EncVal(f, v).value + tail) == Some(tail) && LengthFits(f, v)
  {
    var w := if f.ltype.Varint? then ToUnsigned64(v.i) else if f.ltype.UVarint? then v.i else ZigZag(v.i);
    SkipsVarint(w, tail);
  }

  lemma SkipsBlob(f: Field, v: Val, tail: seq<byte>)
    requires EncVal(f, v).Some? && |EncVal(f, v).value| < TWO63 && f.WireType() == WT_STRING
    ensures SkipField(WT_STRING, EncVal(f, v).value + tail) == if LengthFits(f, v) then Some(tail) else None
  {
    var b := if f.ltype.SubMsg? then EncMsg(f.ltype.desc, v.slots).value else v.b;
    assert EncVal(f, v) == Some(Prefixed(b));
    SkipsPrefixed(b, tail);
  }

  // ----- what is written for a field that the reader does not know -----

  /** A number that the wire can carry, and that the descriptor does not have. */
  predicate Foreign(desc: Desc, f: Field) {
    0 < f.tag < 0x2000_0000 && FindFrom(desc, f.tag, 0).None?
  }

  lemma ValueIsUnknown(desc: Desc, f: Field, v: Val)
    requires Foreign(desc, f) && EncVal(f, v).Some? && |EncVal(f, v).value| < TWO63 && LengthFits(f, v)
    ensures Unknown(desc, EncTag(f.WireType(), f.tag) + EncVal(f, v).value)
  {
    var e := EncVal(f, v).value;
    TagDecodes(f.tag, f.WireType(), e);
    SkipsValue(f, v, []);
    assert e + [] == e;
  }

  lemma PackedIsUnknown(desc: Desc, f: Field, e: seq<byte>)
    requires Foreign(desc, f) && |e| < TWO32
    ensures Unknown(desc, EncTag(WT_STRING, f.tag) + Prefixed(e))
  {
    TagDecodes(f.tag, WT_STRING, Prefixed(e));
    SkipsPrefixed(e, []);
    assert Prefixed(e) + [] == Prefixed(e);
  }

  /** Every length written for the field is below 2 to the 32. */
  predicate LengthsFit(f: Field, s: Slot) {
    match (f.htype, s)
    case (Repeated, Many(items, _)) =>
      if f.Packable() then EncItems(f, items).Some? ==> |EncItems(f, items).value| < TWO32
      else forall i :: 0 <= i < |items| ==> LengthFits(f, items[i])
    case (_, Single(_, v)) => LengthFits(f, v)
    case (_, Chosen(_, v)) => LengthFits(f, v)
    case _ => true
  }

  predicate AllUnknown(desc: Desc, pieces: seq<Piece>) {
    forall i :: 0 <= i < |pieces| ==> pieces[i].Junk? && Unknown(desc, pieces[i].bytes)
  }

  lemma OnePiece(u: seq<byte>)
    ensures Whole([Junk(u)]) == u
  {
    assert [Junk(u)][1..] == [];
    assert u + [] == u;
  }

  lemma {:induction false} EntriesAreUnknown(desc: Desc, f: Field, items: seq<Val>) returns (pieces: seq<Piece>)
    requires Foreign(desc, f) && EncTagged(f, items).Some? && |EncTagged(f, items).value| < TWO63
    requires forall i :: 0 <= i < |items| ==> LengthFits(f, items[i])
    ensures AllUnknown(desc, pieces) && Whole(pieces) == EncTagged(f, items).value
    decreases |items|
  {
    if items == [] {
      pieces := [];
    } else {
      var rest := EntriesAreUnknown(desc, f, items[1..]);
      ValueIsUnknown(desc, f, items[0]);
      pieces := [Junk(EncTag(f.WireType(), f.tag) + EncVal(f, items[0]).value)] + rest;
      assert pieces[1..] == rest;
    }
  }

  /** What the encoder writes for a field that the reader does not know is a row of unknown fields. */
  lemma FieldIsUnknown(desc: Desc, f: Field, s: Slot) returns (pieces: seq<Piece>)
    requires Foreign(desc, f) && EncField(f, s).Some? && |EncField(f, s).value| < TWO63 && LengthsFit(f, s)
    ensures AllUnknown(desc, pieces) && Whole(pieces) == EncField(f, s).value
  {
    if EncField(f, s) == Some([]) {
      pieces := [];
    } else if f.htype.Repeated? {
      pieces := ArrayIsUnknown(desc, f, s.items);
    } else {
      ValueIsUnknown(desc, f, s.val);
      var u := EncField(f, s).value;
      OnePiece(u);
      pieces := [Junk(u)];
    }
  }

  lemma ArrayIsUnknown(desc: Desc, f: Field, items: seq<Val>) returns (pieces: seq<Piece>)
    requires Foreign(desc, f) && EncArray(f, items).Some? && |EncArray(f, items).value| < TWO63 && items != []
    requires if f.Packable() then |EncItems(f, items).value| < TWO32
             else forall i :: 0 <= i < |items| ==> LengthFits(f, items[i])
    ensures AllUnknown(desc, pieces) && Whole(pieces) == EncArray(f, items).value
  {
    if f.Packable() {
      var e := EncItems(f, items).value;
      PackedIsUnknown(desc, f, e);
      OnePiece(EncTag(WT_STRING, f.tag) + Prefixed(e));
      pieces := [Junk(EncTag(WT_STRING, f.tag) + Prefixed(e))];
    } else {
      pieces := EntriesAreUnknown(desc, f, items);
    }
  }

  lemma {:induction false} AllSkipped(desc: Desc, pieces: seq<Piece>, b: seq<byte>, st: State)
    requires AllUnknown(desc, pieces)
    ensures DecLoop(desc, Whole(pieces) + b, st) == DecLoop(desc, b, st)
    decreases |pieces|
  {
    if pieces == [] {
      assert [] + b == b;
    } else {
      var u, rest := pieces[0].bytes, pieces[1..];
      assert Whole(pieces) + b == u + (Whole(rest) + b);
      UnknownSkipped(desc, u, Whole(rest) + b, st);
      AllSkipped(desc, rest, b, st);
    }
  }

  /** A field of any type, with any contents, that the writer knows and the reader does not, changes nothing,
      wherever between two fields it stands. */
  lemma ForeignFieldHarmless(desc: Desc, a: seq<byte>, f: Field, s: Slot, b: seq<byte>, slots: seq<Slot>)
    requires Foreign(desc, f) && EncField(f, s).Some? && |EncField(f, s).value| < TWO63 && LengthsFit(f, s)
    requires DecLoop(desc, a, Start(slots)).Some? && !DecLoop(desc, a, Start(slots)).value.stopped
    ensures DecMsg(desc, a + (EncField(f, s).value + b), slots) == DecMsg(desc, a + b, slots)
  {
    var pieces := FieldIsUnknown(desc, f, s);
    var e := EncField(f, s).value;
    LoopGoesOn(desc, a, e + b, Start(slots));
    LoopGoesOn(desc, a, b, Start(slots));
    AllSkipped(desc, pieces, b, DecLoop(desc, a, Start(slots)).value.state);
  }

  // ----- a reader with an older schema -----

  /** The fields of a message from field `i` on, in their order, with anything unknown to the reader in between. */
  predicate Interleaved(desc: Desc, slots: seq<Slot>, i: nat, pieces: seq<Piece>)
    decreases |pieces|
  {
    if pieces == [] then i == |desc.fields|
    else if pieces[0].Junk? then Unknown(desc, pieces[0].bytes) && Interleaved(desc, slots, i, pieces[1..])
    else
      && i < |desc.fields| == |slots|
      && EncField(desc.fields[i], slots[SlotOf(desc, i)]) == Some(pieces[0].bytes)
      && Interleaved(desc, slots, i + 1, pieces[1..])
  }

  lemma {:induction false} InterleavedIsMessage(desc: Desc, slots: seq<Slot>, i: nat, pieces: seq<Piece>)
    requires i <= |desc.fields| == |slots| && Interleaved(desc, slots, i, pieces)
    ensures EncFrom(desc, slots, i) == Some(WithoutJunk(pieces))
    decreases |pieces|
  {
    if pieces != [] {
      if pieces[0].Junk? {
        InterleavedIsMessage(desc, slots, i, pieces[1..]);
        assert [] + WithoutJunk(pieces[1..]) == WithoutJunk(pieces[1..]);
      } else {
        InterleavedIsMessage(desc, slots, i + 1, pieces[1..]);
      }
    }
  }

  /** What makes `slots` a message whose fields can all be read. */
  predicate Readable(desc: Desc, slots: seq<Slot>) {
    SchemaOk(desc) && MsgOk(desc, slots) && Fits(desc, slots)
  }

  lemma {:induction false} FieldsEndAtBoundaries(desc: Desc, slots: seq<Slot>, i: nat, pieces: seq<Piece>, st: State)
    requires Readable(desc, slots) && i <= |desc.fields| && At(desc, slots, i, st)
    requires Interleaved(desc, slots, i, pieces) && |WithoutJunk(pieces)| < TWO63
    ensures AtBoundaries(desc, pieces, st)
    decreases |pieces|
  {
    if pieces != [] {
      FirstOfInterleaved(desc, slots, i, pieces);
      if pieces[0].Junk? {
        FieldsEndAtBoundaries(desc, slots, i, pieces[1..], st);
      } else {
        var next := FieldEndsThere(desc, slots, i, pieces[0].bytes, st);
        FieldsEndAtBoundaries(desc, slots, i + 1, pieces[1..], next);
      }
      FirstAtBoundary(desc, pieces, st);
    }
  }

  lemma FirstOfInterleaved(desc: Desc, slots: seq<Slot>, i: nat, pieces: seq<Piece>)
    requires Interleaved(desc, slots, i, pieces) && pieces != []
    ensures pieces[0].Junk? ==> Unknown(desc, pieces[0].bytes) && Interleaved(desc, slots, i, pieces[1..])
    ensures pieces[0].Known? ==>
              && i < |desc.fields| == |slots| && Interleaved(desc, slots, i + 1, pieces[1..])
              && EncField(desc.fields[i], slots[SlotOf(desc, i)]) == Some(pieces[0].bytes)
              && |WithoutJunk(pieces)| == |pieces[0].bytes| + |WithoutJunk(pieces[1..])|
    ensures pieces[0].Junk? ==> WithoutJunk(pieces) == WithoutJunk(pieces[1..])
  {
  }

  lemma FirstAtBoundary(desc: Desc, pieces: seq<Piece>, st: State)
    requires pieces != []
    requires pieces[0].Junk? ==> Unknown(desc, pieces[0].bytes) && AtBoundaries(desc, pieces[1..], st)
    requires pieces[0].Known? ==>
               var l := DecLoop(desc, pieces[0].bytes, st);
               l.Some? && !l.value.stopped && AtBoundaries(desc, pieces[1..], l.value.state)
    ensures AtBoundaries(desc, pieces, st)
  {
  }

  lemma FieldEndsThere(desc: Desc, slots: seq<Slot>, i: nat, e: seq<byte>, st: State) returns (next: State)
    requires Readable(desc, slots) && i < |desc.fields| && At(desc, slots, i, st)
    requires EncField(desc.fields[i], slots[SlotOf(desc, i)]) == Some(e) && |e| < TWO63
    ensures DecLoop(desc, e, st) == Some(Loop(next, [], false)) && At(desc, slots, i + 1, next)
  {
    next := Passed(desc, slots, i, st);
    FieldDecodes(desc, slots, i, [], st);
    assert e + [] == e;
    PassedAt(desc, slots, i, st);
  }

  /** A reader gets all that it knows of a message from a writer that knows more: the fields of the reader's
      message, with whatever else the writer has put between them. */
  lemma OlderReader(desc: Desc, slots: seq<Slot>, pieces: seq<Piece>)
    requires SchemaOk(desc) && MsgOk(desc, slots) && Fits(desc, slots) && Interleaved(desc, slots, 0, pieces)
    requires |WithoutJunk(pieces)| < TWO63
    ensures Decode(desc, Whole(pieces)) == Some(Got(Back(desc, slots), []))
  {
    assert Mixed(desc, slots, 0) == Defaults(desc);
    FieldsEndAtBoundaries(desc, slots, 0, pieces, Start(Defaults(desc)));
    UnknownFieldsHarmless(desc, pieces, Defaults(desc));
    InterleavedIsMessage(desc, slots, 0, pieces);
    MsgDecodes(desc, slots);
  }
}
