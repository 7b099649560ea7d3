/** An array of numbers in the input: packed, one by one, or in any mixture of the two. */
module PbArrays {
  import opened Bytes
  import opened Wrappers
  import PbWire
  import opened PbStreams
  import opened PbSchema
  import opened PbDecodeSpec
  import opened PbRoundTrip

  /** A part of the array: entries behind one tag and one length, or each behind a tag of its own. */
  datatype Part = Packed(items: seq<Val>) | OneByOne(items: seq<Val>)

  function PartBytes(f: Field, part: Part): Option<seq<byte>> {
    if part.OneByOne? then EncTagged(f, part.items)
    else
      var e := EncItems(f, part.items);
      if e.Some? then Some(EncTag(WT_STRING, f.tag) + Prefixed(e.value)) else None
  }

  function PartsBytes(f: Field, parts: seq<Part>): Option<seq<byte>> {
    if parts == [] then Some([]) else Join(PartBytes(f, parts[0]), PartsBytes(f, parts[1..]))
  }

  function Entries(parts: seq<Part>): seq<Val> {
    if parts == [] then [] else parts[0].items + Entries(parts[1..])
  }

  /** There is something in the part, all its entries are of the field's range, and its length can be written. */
  predicate PartOk(f: Field, part: Part) {
    && part.items != [] && (forall j :: 0 <= j < |part.items| ==> ValOk(f, part.items[j]))
    && PartBytes(f, part).Some? && |PartBytes(f, part).value| < PbWire.TWO32
  }

  lemma PartDecodes(desc: Desc, i: nat, part: Part, tail: seq<byte>, st: State, a: Array)
    requires SchemaOk(desc) && i < |desc.fields| && desc.fields[i].htype.Repeated? && desc.fields[i].Packable()
    requires Midway(desc, i, st, a) && HasRoom(desc.fields[i], a, |part.items|) && PartOk(desc.fields[i], part)
    ensures var f := desc.fields[i];
            DecLoop(desc, PartBytes(f, part).value + tail, st) ==
            DecLoop(desc, tail, Further(desc, i, st, Filled(f, a, part.items)))
  {
    var f := desc.fields[i];
    if part.Packed? {
      var tag, e := EncTag(WT_STRING, f.tag), EncItems(f, part.items).value;
      assert tag + Prefixed(e) + tail == tag + (Prefixed(e) + tail);
      PackedArrayField(desc, i, part.items, tail, st, a);
    } else {
      assert BackItems(f, part.items) == part.items;
      TaggedDecodes(desc, i, part.items, tail, st, a);
    }
  }

  lemma FilledTwice(f: Field, a: Array, items: seq<Val>, rest: seq<Val>)
    requires HasRoom(f, a, |items| + |rest|)
    ensures HasRoom(f, Filled(f, a, items), |rest|)
    ensures Filled(f, Filled(f, a, items), rest) == Filled(f, a, items + rest)
  {
    var next := Filled(f, a, items);
    if f.FixedCount() {
      assert next.items[..next.count] == a.items[..a.count] + items;
      assert next.items[next.count + |rest|..] == a.items[a.count + (|items| + |rest|)..];
      assert a.items[..a.count] + items + rest == a.items[..a.count] + (items + rest);
    } else {
      assert a.items + items + rest == a.items + (items + rest);
    }
  }

  /** However an array is divided into parts, and whichever of them are packed, the decoder puts together the
      same entries. */
  lemma {:induction false} ArrayInParts(desc: Desc, i: nat, parts: seq<Part>, tail: seq<byte>, st: State, a: Array)
    requires SchemaOk(desc) && i < |desc.fields| && desc.fields[i].htype.Repeated? && desc.fields[i].Packable()
    requires Midway(desc, i, st, a) && HasRoom(desc.fields[i], a, |Entries(parts)|) && parts != []
    requires forall k :: 0 <= k < |parts| ==> PartOk(desc.fields[i], parts[k])
    ensures var f := desc.fields[i];
            && PartsBytes(f, parts).Some?
            && DecLoop(desc, PartsBytes(f, parts).value + tail, st) ==
               DecLoop(desc, tail, Further(desc, i, st, Filled(f, a, Entries(parts))))
    decreases |parts|
  {
    var f, part, rest := desc.fields[i], parts[0], parts[1..];
    FilledTwice(f, a, part.items, Entries(rest));
    var next := Filled(f, a, part.items);
    var after := Further(desc, i, st, next);
    MidwayFurther(desc, i, st, a, next);
    if rest == [] {
      assert parts == [part] && part.items + [] == part.items
             && PartBytes(f, part).value + [] == PartBytes(f, part).value;
      PartDecodes(desc, i, part, tail, st, a);
    } else {
      ArrayInParts(desc, i, rest, tail, after, next);
      var first, more := PartBytes(f, part).value, PartsBytes(f, rest).value;
      assert first + more + tail == first + (more + tail);
      PartDecodes(desc, i, part, more + tail, st, a);
      FurtherTwice(desc, i, st, next, Filled(f, next, Entries(rest)));
    }
  }

  // ----- more entries than places -----

  lemma {:induction false} PackedOverflows(f: Field, items: seq<Val>, a: Array)
    requires FieldOk(f) && f.Packable() && HasRoom(f, a, 0) && a.count + |items| > f.arraySize
    requires forall j :: 0 <= j < |items| ==> ValOk(f, items[j])
    ensures EncItems(f, items).Some? && DecPacked(f, EncItems(f, items).value, a) == None
    decreases |items|
  {
    var v, rest := items[0], items[1..];
    PackableDecodes(f, v, [], OldItem(f, a.items, a.count));
    var e := EncVal(f, v).value;
    assert e + [] == e;
    if a.count < f.arraySize {
      var next := Array(PutItem(f, a.items, a.count, v), a.count + 1);
      PackedOverflows(f, rest, next);
      PackableDecodes(f, v, EncItems(f, rest).value, OldItem(f, a.items, a.count));
    } else {
      AllEncode(f, rest);
      assert EncItems(f, items).value == e + EncItems(f, rest).value;
    }
  }

  lemma {:induction false} AllEncode(f: Field, items: seq<Val>)
    requires FieldOk(f) && f.Packable() && forall j :: 0 <= j < |items| ==> ValOk(f, items[j])
    ensures EncItems(f, items).Some?
    decreases |items|
  {
    if items != [] {
      PackableDecodes(f, items[0], [], Num(0));
      AllEncode(f, items[1..]);
    }
  }

  /** An entry for which there is no place is refused, packed or not. */
  lemma OverflowRefused(desc: Desc, i: nat, part: Part, tail: seq<byte>, st: State, a: Array)
    requires SchemaOk(desc) && i < |desc.fields| && desc.fields[i].htype.Repeated? && desc.fields[i].Packable()
    requires Midway(desc, i, st, a) && HasRoom(desc.fields[i], a, 0) && PartOk(desc.fields[i], part)
    requires a.count + |part.items| > desc.fields[i].arraySize
    ensures DecLoop(desc, PartBytes(desc.fields[i], part).value + tail, st) == None
  {
    var f := desc.fields[i];
    if part.Packed? {
      var tag, e := EncTag(WT_STRING, f.tag), EncItems(f, part.items).value;
      assert tag + Prefixed(e) + tail == tag + (Prefixed(e) + tail);
      PackedOverflows(f, part.items, a);
      PrefixDecodes(e, tail);
      ArrayField(desc, i, WT_STRING, Prefixed(e) + tail, st, a);
    } else {
      TaggedOverflows(desc, i, part.items, tail, st, a);
    }
  }

  lemma {:induction false} TaggedOverflows(desc: Desc, i: nat, items: seq<Val>, tail: seq<byte>, st: State, a: Array)
    requires SchemaOk(desc) && i < |desc.fields| && desc.fields[i].htype.Repeated?
    requires Midway(desc, i, st, a) && HasRoom(desc.fields[i], a, 0) && a.count + |items| > desc.fields[i].arraySize
    requires forall j :: 0 <= j < |items| ==> ValOk(desc.fields[i], items[j])
    requires EncTagged(desc.fields[i], items).Some? && |EncTagged(desc.fields[i], items).value| < PbWire.TWO63
    ensures DecLoop(desc, EncTagged(desc.fields[i], items).value + tail, st) == None
    decreases |items|
  {
    var f := desc.fields[i];
    var v, rest := items[0], items[1..];
    var more := EncTagged(f, rest).value;
    TaggedFirst(f, items, more, tail);
    if a.count < f.arraySize {
      var next := Entered(f, a, v);
      EntryField(desc, i, v, more + tail, st, a);
      MidwayFurther(desc, i, st, a, next);
      TaggedOverflows(desc, i, rest, tail, Further(desc, i, st, next), next);
    } else {
      ArrayField(desc, i, f.WireType(), EncVal(f, v).value + (more + tail), st, a);
    }
  }
}
