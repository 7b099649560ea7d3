/** Decoding one message after the other is decoding their concatenation; fields that the descriptor does
    not know may stand anywhere between the others. */
module PbMerge {
  import opened Words
  import opened Bytes
  import opened Wrappers
  import opened PbWire
  import opened PbSchema
  import opened PbDecodeSpec

  // ----- what follows a value does not matter -----

  /** With more bytes behind its input, a parser gets the same, and leaves those bytes too. */
  ghost predicate Extends<T>(short: Option<Got<T>>, long: Option<Got<T>>, more: seq<byte>) {
    short.Some? ==> long == Some(Got(short.value.value, short.value.rest + more))
  }

  lemma {:induction false} VarintMore(s: seq<byte>, more: seq<byte>, bitpos: nat, result: nat)
    ensures Extends(VarintFrom(s, bitpos, result), VarintFrom(s + more, bitpos, result), more)
    decreases |s|
  {
    if s != [] {
      assert (s + more)[1..] == s[1..] + more;
      VarintMore(s[1..], more, bitpos + 7, Or(result, ShiftLeft(s[0] % 128, bitpos, 64)));
    }
  }

  lemma {:induction false} Varint32FromMore(s: seq<byte>, more: seq<byte>, bitpos: nat, result: nat)
    ensures Extends(Varint32From(s, bitpos, result), Varint32From(s + more, bitpos, result), more)
    decreases |s|
  {
    if s != [] {
      assert (s + more)[1..] == s[1..] + more;
      var round := Round32(s[0], bitpos, result, Or(result, ShiftLeft(s[0] % 128, bitpos, 32)));
      if round.Continue? {
        Varint32FromMore(s[1..], more, round.bitpos, round.value);
      }
    }
  }

  lemma Varint32More(s: seq<byte>, more: seq<byte>)
    ensures Extends(ReadVarint32(s), ReadVarint32(s + more), more)
  {
    if s != [] {
      assert (s + more)[1..] == s[1..] + more;
      Varint32FromMore(s[1..], more, 7, s[0] % 128);
    }
  }

  lemma SplitMore(s: seq<byte>, more: seq<byte>, n: nat)
    requires n <= |s|
    ensures (s + more)[..n] == s[..n] && (s + more)[n..] == s[n..] + more
  {
  }

  lemma PrefixedMore(s: seq<byte>, more: seq<byte>)
    ensures Extends(ReadPrefixed(s), ReadPrefixed(s + more), more)
  {
    Varint32More(s, more);
    var n := ReadVarint32(s);
    if n.Some? && n.value.value <= |n.value.rest| {
      SplitMore(n.value.rest, more, n.value.value);
    }
  }

  lemma {:induction false} SkipVarintMore(s: seq<byte>, more: seq<byte>)
    ensures SkipVarint(s).Some? ==> SkipVarint(s + more) == Some(SkipVarint(s).value + more)
  {
    if s != [] {
      assert (s + more)[1..] == s[1..] + more;
      SkipVarintMore(s[1..], more);
    }
  }

  lemma SkipMore(wireType: nat, s: seq<byte>, more: seq<byte>)
    ensures SkipField(wireType, s).Some? ==> SkipField(wireType, s + more) == Some(SkipField(wireType, s).value + more)
  {
    if wireType == WT_VARINT {
      SkipVarintMore(s, more);
    } else if wireType == WT_STRING {
      PrefixedMore(s, more);
    } else if SkipField(wireType, s).Some? {
      SplitMore(s, more, if wireType == WT_64BIT then 8 else 4);
    }
  }

  // ----- nor does what follows a field -----

  lemma NumberMore(f: Field, s: seq<byte>, more: seq<byte>, was: Val)
    requires f.Packable()
    ensures Extends(DecVal(f, s, was), DecVal(f, s + more, was), more)
  {
    if f.ltype.Fixed32? || f.ltype.Fixed64? {
      var n := if f.ltype.Fixed32? then 4 else 8;
      if |s| >= n {
        SplitMore(s, more, n);
      }
    } else {
      VarintMore(s, more, 0, 0);
    }
  }

  lemma BlobMore(f: Field, s: seq<byte>, more: seq<byte>)
    ensures Extends(DecBlob(f, s), DecBlob(f, s + more), more)
  {
    Varint32More(s, more);
    var n := ReadVarint32(s);
    if n.Some? && n.value.value <= |n.value.rest| {
      SplitMore(n.value.rest, more, n.value.value);
    }
  }

  lemma ValMore(f: Field, s: seq<byte>, more: seq<byte>, was: Val)
    ensures Extends(DecVal(f, s, was), DecVal(f, s + more, was), more)
  {
    if f.ltype.SubMsg? {
      PrefixedMore(s, more);
    } else if f.Packable() {
      NumberMore(f, s, more, was);
    } else {
      BlobMore(f, s, more);
    }
  }

  lemma RepeatedMore(f: Field, wireType: nat, s: seq<byte>, a: Array, more: seq<byte>)
    ensures Extends(DecRepeated(f, wireType, s, a), DecRepeated(f, wireType, s + more, a), more)
  {
    if wireType == WT_STRING && f.Packable() {
      PrefixedMore(s, more);
    } else {
      ValMore(f, s, more, OldItem(f, a.items, a.count));
    }
  }

  lemma StaticMore(f: Field, wireType: nat, s: seq<byte>, slot: Slot, count: nat, more: seq<byte>)
    ensures Extends(DecStatic(f, wireType, s, slot, count), DecStatic(f, wireType, s + more, slot, count), more)
  {
    if Shape(f, slot) {
      match f.htype
      case Repeated => RepeatedMore(f, wireType, s, Array(slot.items, if f.FixedCount() then count else |slot.items|),
        more);
      case Oneof => ValMore(f, s, more, if f.ltype.SubMsg? then Msg(Defaults(f.ltype.desc)) else Num(0));
      case _ => ValMore(f, s, more, slot.val);
    }
  }

  lemma FieldMore(desc: Desc, i: nat, wireType: nat, s: seq<byte>, st: State, more: seq<byte>)
    requires i < |desc.fields|
    ensures Extends(DecField(desc, i, wireType, s, st), DecField(desc, i, wireType, s + more, st), more)
  {
    var noted := Noted(desc, i, st);
    if noted.Some? && |st.slots| == |desc.fields| {
      StaticMore(desc.fields[i], wireType, s, st.slots[SlotOf(desc, i)], noted.value.fixedCount, more);
    }
  }

  lemma TurnMore(desc: Desc, s: seq<byte>, st: State, more: seq<byte>)
    ensures var t := DecTurn(desc, s, st); t.Took? ==> DecTurn(desc, s + more, st) == Took(t.state, t.rest + more)
  {
    Varint32More(s, more);
    var t := ReadTag(s);
    if t.FieldTag? {
      assert ReadTag(s + more) == FieldTag(t.tag, t.wireType, t.rest + more);
      var i := FindFrom(desc, t.tag, 0);
      if i.None? {
        SkipMore(t.wireType, t.rest, more);
      } else {
        FieldMore(desc, i.value, t.wireType, t.rest, st, more);
      }
    }
  }

  /** The loop that came to the end of its input goes on with what follows. */
  lemma {:induction false} LoopGoesOn(desc: Desc, a: seq<byte>, b: seq<byte>, st: State)
    requires DecLoop(desc, a, st).Some? && !DecLoop(desc, a, st).value.stopped
    ensures DecLoop(desc, a, st).value.rest == []
    ensures DecLoop(desc, a + b, st) == DecLoop(desc, b, DecLoop(desc, a, st).value.state)
    decreases |a|
  {
    if a == [] {
      assert a + b == b;
    } else {
      TurnMore(desc, a, st, b);
      var t := DecTurn(desc, a, st);
      LoopGoesOn(desc, t.rest, b, t.state);
    }
  }

  // ----- composition -----

  /** The field of fixed count that comes next in the input, if it is one. */
  function FixedFront(desc: Desc, s: seq<byte>): (r: seq<nat>)
    ensures forall k :: 0 <= k < |r| ==> r[k] < |desc.fields| && desc.fields[r[k]].FixedCount()
  {
    match ReadTag(s)
    case FieldTag(tag, _, _) =>
      var i := FindFrom(desc, tag, 0);
      if i.Some? && desc.fields[i.value].FixedCount() then [i.value] else []
    case _ => []
  }

  /** The fields of fixed count that the loop meets, in order. */
  function FixedMet(desc: Desc, s: seq<byte>, st: State): (r: seq<nat>)
    ensures forall k :: 0 <= k < |r| ==> r[k] < |desc.fields| && desc.fields[r[k]].FixedCount()
    decreases |s|
  {
    if s == [] then []
    else
      var t := DecTurn(desc, s, st);
      FixedFront(desc, s) + if t.Took? then FixedMet(desc, t.rest, t.state) else []
  }

  lemma StaticKeepsCount(f: Field, wireType: nat, s: seq<byte>, slot: Slot, count: nat, other: nat)
    requires !f.FixedCount()
    ensures var p, q := DecStatic(f, wireType, s, slot, count), DecStatic(f, wireType, s, slot, other);
            && p.Some? == q.Some?
            && (p.Some? ==> p.value.rest == q.value.rest && p.value.value.slot == q.value.value.slot)
            && (p.Some? ==> p.value.value.count == count && q.value.value.count == other)
  {
  }

  /** A turn notes the field of fixed count that it meets. */
  lemma TurnMeets(desc: Desc, s: seq<byte>, st: State)
    ensures var t := DecTurn(desc, s, st);
            t.Took? ==> t.state.fixedField == if FixedFront(desc, s) == [] then st.fixedField
              else Some(FixedFront(desc, s)[0])
    ensures |FixedFront(desc, s)| <= 1
  {
  }

  /** At the end, the loop has noted the last one it met. */
  lemma {:induction false} LastMet(desc: Desc, s: seq<byte>, st: State)
    requires DecLoop(desc, s, st).Some?
    ensures var met := FixedMet(desc, s, st);
            DecLoop(desc, s, st).value.state.fixedField == if met == [] then st.fixedField else Some(met[|met| - 1])
    decreases |s|
  {
    if s != [] {
      TurnMeets(desc, s, st);
      var t := DecTurn(desc, s, st);
      if t.Took? {
        LastMet(desc, t.rest, t.state);
        LastOfBoth(FixedFront(desc, s), FixedMet(desc, t.rest, t.state));
      }
    }
  }

  lemma LastOfBoth(a: seq<nat>, b: seq<nat>)
    ensures b == [] ==> a + b == a
    ensures b != [] ==> (a + b)[|a + b| - 1] == b[|b| - 1]
  {
  }

  /** Two states with the same contents, one of which has seen more, and which agree on the array of fixed
      count being filled, or the other has none and this one's is complete. */
  predicate Alongside(desc: Desc, st: State, other: State, seen: set<nat>) {
    && other.slots == st.slots && other.seen == st.seen + seen
    && ( || (other.fixedField == st.fixedField && other.fixedCount == st.fixedCount)
         || (st.fixedField.None? && FixedComplete(desc, other)))
  }

  /** The input does not go on with an array of the state that is complete already. */
  predicate Clear(desc: Desc, met: seq<nat>, st: State, other: State) {
    st.fixedField.None? && other.fixedField.Some? && met != [] ==>
      met[0] < |desc.fields| && (met[0] != other.fixedField.value || desc.fields[met[0]].arraySize == 0)
  }

  lemma NotedAlongside(desc: Desc, i: nat, st: State, other: State, seen: set<nat>)
    requires i < |desc.fields| && Alongside(desc, st, other, seen)
    requires desc.fields[i].FixedCount() ==> Clear(desc, [i], st, other)
    ensures var n, m := Noted(desc, i, st), Noted(desc, i, other);
            && n.Some? == m.Some?
            && (n.Some? ==> Alongside(desc, n.value, m.value, seen))
            && (n.Some? && desc.fields[i].FixedCount() ==>
                 n.value.fixedField == Some(i) && n.value.fixedCount == m.value.fixedCount)
            && (n.Some? && !desc.fields[i].FixedCount() ==>
                  && n.value.fixedField == st.fixedField && m.value.fixedField == other.fixedField
                  && n.value.fixedCount == st.fixedCount && m.value.fixedCount == other.fixedCount)
  {
    assert MarkSeen(desc, i, st.seen + seen) == MarkSeen(desc, i, st.seen) + seen;
  }

  lemma FieldAlongside(desc: Desc, i: nat, wireType: nat, s: seq<byte>, st: State, other: State, seen: set<nat>)
    requires i < |desc.fields| && Alongside(desc, st, other, seen)
    requires desc.fields[i].FixedCount() ==> Clear(desc, [i], st, other)
    ensures var p, q := DecField(desc, i, wireType, s, st), DecField(desc, i, wireType, s, other);
            && p.Some? == q.Some?
            && (p.Some? ==> p.value.rest == q.value.rest && Alongside(desc, p.value.value, q.value.value, seen))
  {
    NotedAlongside(desc, i, st, other, seen);
    var n, m := Noted(desc, i, st), Noted(desc, i, other);
    if n.Some? && |st.slots| == |desc.fields| && !desc.fields[i].FixedCount() {
      StaticKeepsCount(desc.fields[i], wireType, s, st.slots[SlotOf(desc, i)], st.fixedCount, other.fixedCount);
    }
  }

  lemma TurnAlongside(desc: Desc, s: seq<byte>, st: State, other: State, seen: set<nat>)
    requires Alongside(desc, st, other, seen) && Clear(desc, FixedFront(desc, s), st, other)
    ensures match DecTurn(desc, s, st)
            case Refused => DecTurn(desc, s, other) == Refused
            case Stopped(rest) => DecTurn(desc, s, other) == Stopped(rest)
            case Took(next, rest) =>
              var t := DecTurn(desc, s, other);
              t.Took? && t.rest == rest && Alongside(desc, next, t.state, seen)
  {
    var t := ReadTag(s);
    if t.FieldTag? {
      var i := FindFrom(desc, t.tag, 0);
      if i.Some? {
        assert desc.fields[i.value].FixedCount() ==> FixedFront(desc, s) == [i.value];
        FieldAlongside(desc, i.value, t.wireType, t.rest, st, other, seen);
      }
    }
  }

  lemma ClearAfter(desc: Desc, front: seq<nat>, met: seq<nat>, st: State, other: State, next: State, other': State)
    requires Clear(desc, front + met, st, other)
    requires |front| <= 1 && (front != [] ==> front[0] < |desc.fields|)
    requires next.fixedField == if front == [] then st.fixedField else Some(front[0])
    requires other'.fixedField == if front == [] then other.fixedField else Some(front[0])
    ensures Clear(desc, front, st, other) && Clear(desc, met, next, other')
  {
    if front == [] {
      assert front + met == met;
    }
  }

  /** What has been seen or completed before does not influence the loop. */
  lemma {:induction false} LoopAlongside(desc: Desc, s: seq<byte>, st: State, other: State, seen: set<nat>)
    requires Alongside(desc, st, other, seen) && Clear(desc, FixedMet(desc, s, st), st, other)
    ensures var p, q := DecLoop(desc, s, st), DecLoop(desc, s, other);
            && p.Some? == q.Some?
            && (p.Some? ==> p.value.rest == q.value.rest && Alongside(desc, p.value.state, q.value.state, seen))
    decreases |s|
  {
    if s != [] {
      var front, t := FixedFront(desc, s), DecTurn(desc, s, st);
      var met := if t.Took? then FixedMet(desc, t.rest, t.state) else [];
      assert FixedMet(desc, s, st) == front + met;
      TurnMeets(desc, s, st);
      TurnMeets(desc, s, other);
      assert Clear(desc, front, st, other);
      TurnAlongside(desc, s, st, other, seen);
      if t.Took? {
        var u := DecTurn(desc, s, other);
        ClearAfter(desc, front, met, st, other, t.state, u.state);
        LoopAlongside(desc, t.rest, t.state, u.state, seen);
      }
    }
  }

  // ----- going on with a complete array -----

  /** The state before an array of fixed count, or at its start, and one in which it is complete. */
  predicate Behind(desc: Desc, i: nat, st: State, full: State) {
    && i < |desc.fields| && desc.fields[i].FixedCount() && desc.fields[i].arraySize > 0
    && full.slots == st.slots && full.fixedField == Some(i) && full.fixedCount == desc.fields[i].arraySize
    && (st.fixedField.None? || (st.fixedField == Some(i) && st.fixedCount == 0))
  }

  /** A complete array takes no more entries; it does take packed fields without any. */
  lemma NoMoreEntries(f: Field, wireType: nat, s: seq<byte>, slot: Slot)
    requires f.FixedCount()
    ensures var p := DecStatic(f, wireType, s, slot, f.arraySize);
            p.Some? ==> DecStatic(f, wireType, s, slot, 0) == Some(Got(Placed(p.value.value.slot, 0), p.value.rest)) &&
                        p.value.value.count == f.arraySize
  {
    if slot.Many? {
      NoMoreInArray(f, wireType, s, slot.items);
    }
  }

  lemma NoMoreInArray(f: Field, wireType: nat, s: seq<byte>, items: seq<Val>)
    ensures var full, none := Array(items, f.arraySize), Array(items, 0);
            var p := DecRepeated(f, wireType, s, full);
            p.Some? ==> p.value.value == full && DecRepeated(f, wireType, s, none) == Some(Got(none, p.value.rest))
  {
    var full, none := Array(items, f.arraySize), Array(items, 0);
    var p := ReadPrefixed(s);
    if wireType == WT_STRING && f.Packable() && p.Some? {
      var b := p.value.value;
      assert DecPacked(f, b, full) == if b == [] then Some(full) else None;
      assert b == [] ==> DecPacked(f, b, none) == Some(none);
    }
  }

  lemma FieldBehind(desc: Desc, i: nat, j: nat, wireType: nat, s: seq<byte>, st: State, full: State)
    requires Behind(desc, i, st, full) && j < |desc.fields|
    requires st.fixedField.None? && desc.fields[j].FixedCount() ==> j == i
    ensures var p, q := DecField(desc, j, wireType, s, st), DecField(desc, j, wireType, s, full);
            p.Some? && q.Some? ==> p.value.rest == q.value.rest && Behind(desc, i, p.value.value, q.value.value)
  {
    if |st.slots| == |desc.fields| {
      if desc.fields[j].FixedCount() {
        NoMoreEntries(desc.fields[j], wireType, s, st.slots[SlotOf(desc, j)]);
      } else {
        StaticKeepsCount(desc.fields[j], wireType, s, st.slots[SlotOf(desc, j)], st.fixedCount, full.fixedCount);
      }
    }
  }

  lemma TurnBehind(desc: Desc, i: nat, s: seq<byte>, st: State, full: State)
    requires Behind(desc, i, st, full)
    requires st.fixedField.None? && FixedFront(desc, s) != [] ==> FixedFront(desc, s)[0] == i
    ensures var t, u := DecTurn(desc, s, st), DecTurn(desc, s, full);
            && (t.Took? && u.Took? ==> t.rest == u.rest && Behind(desc, i, t.state, u.state))
            && (t.Stopped? <==> u.Stopped?)
  {
    var t := ReadTag(s);
    if t.FieldTag? {
      var j := FindFrom(desc, t.tag, 0);
      if j.Some? {
        FieldBehind(desc, i, j.value, t.wireType, t.rest, st, full);
      }
    }
  }

  /** When the array comes again, the loop fails, unless the input does not fill it on its own. */
  lemma {:induction false} LoopBehind(desc: Desc, i: nat, s: seq<byte>, st: State, full: State)
    requires Behind(desc, i, st, full)
    requires st.fixedField.None? ==> FixedMet(desc, s, st) != [] && FixedMet(desc, s, st)[0] == i
    requires DecLoop(desc, s, st).Some? && FixedComplete(desc, DecLoop(desc, s, st).value.state)
    ensures DecLoop(desc, s, full).None?
    decreases |s|
  {
    if s != [] {
      TurnMeets(desc, s, st);
      TurnBehind(desc, i, s, st, full);
      var t, u := DecTurn(desc, s, st), DecTurn(desc, s, full);
      if t.Took? && u.Took? {
        LoopBehind(desc, i, t.rest, t.state, u.state);
      }
    }
  }

  // ----- the theorem -----

  /** `b` begins its arrays of fixed count with the one that `a` filled last, which has entries. */
  predicate Clash(desc: Desc, a: seq<byte>, b: seq<byte>, slots: seq<Slot>, then_: seq<Slot>) {
    var metA, metB := FixedMet(desc, a, Start(slots)), FixedMet(desc, b, Start(then_));
    metA != [] && metB != [] && metA[|metA| - 1] == metB[0] && desc.fields[metB[0]].arraySize > 0
  }

  /** Without a clash, a concatenation decodes exactly when its second part does on top of the contents of
      the first, and the two together have all required fields; and gives what the second part gives. */
  lemma Composes(desc: Desc, a: seq<byte>, b: seq<byte>, slots: seq<Slot>)
    requires DecLoop(desc, a, Start(slots)).Some? && !DecLoop(desc, a, Start(slots)).value.stopped
    requires FixedComplete(desc, DecLoop(desc, a, Start(slots)).value.state)
    requires !Clash(desc, a, b, slots, DecLoop(desc, a, Start(slots)).value.state.slots)
    ensures var first := DecLoop(desc, a, Start(slots)).value.state;
            var second := DecLoop(desc, b, Start(first.slots));
            DecMsg(desc, a + b, slots) ==
            if second.None? || !FixedComplete(desc, second.value.state) ||
               !RequiredSeen(desc, second.value.state.seen + first.seen) then None
            else Some(Got(second.value.state.slots, second.value.rest))
  {
    var first := DecLoop(desc, a, Start(slots)).value.state;
    LoopGoesOn(desc, a, b, Start(slots));
    LastMet(desc, a, Start(slots));
    assert {} + first.seen == first.seen;
    EndsAlongside(desc, b, Start(first.slots), first, first.seen);
  }

  lemma EndsAlongside(desc: Desc, s: seq<byte>, st: State, other: State, seen: set<nat>)
    requires Alongside(desc, st, other, seen) && Clear(desc, FixedMet(desc, s, st), st, other)
    ensures var p, q := DecLoop(desc, s, st), DecLoop(desc, s, other);
            && p.Some? == q.Some?
            && (p.Some? ==>
                  && p.value.rest == q.value.rest && p.value.state.slots == q.value.state.slots
                  && q.value.state.seen == p.value.state.seen + seen
                  && FixedComplete(desc, p.value.state) == FixedComplete(desc, q.value.state))
  {
    LoopAlongside(desc, s, st, other, seen);
  }

  /** Decoding `a` to its end and `b` on top of it is decoding the two in one, if and only if they do not
      clash; and if they do, the two in one are refused. */
  lemma DecodingComposes(desc: Desc, a: seq<byte>, b: seq<byte>, slots: seq<Slot>, then_: seq<Slot>,
      result: Got<seq<Slot>>)
    requires DecMsg(desc, a, slots) == Some(Got(then_, [])) && !DecLoop(desc, a, Start(slots)).value.stopped
    requires DecMsg(desc, b, then_) == Some(result)
    ensures DecMsg(desc, a + b, slots) == if Clash(desc, a, b, slots, then_) then None else Some(result)
  {
    if Clash(desc, a, b, slots, then_) {
      var first := DecLoop(desc, a, Start(slots)).value.state;
      LoopGoesOn(desc, a, b, Start(slots));
      LastMet(desc, a, Start(slots));
      LoopBehind(desc, FixedMet(desc, b, Start(then_))[0], b, Start(then_), first);
    } else {
      Composes(desc, a, b, slots);
    }
  }

  /** One array of exactly one entry, without a counter. */
  function ArrayOfOne(): Desc {
    Desc([Field(1, Repeated, Fixed32, 0, 0, 4, 1, None)])
  }

  /** There are inputs that clash: one entry decodes, on top of anything, but two of them in a row are too
      many. */
  lemma FixedCountsClash(v: Val)
    requires v.Num?
    ensures var desc, a: seq<byte>, was := ArrayOfOne(), [13, 0, 0, 0, 0], Many([v], v.i % TWO32);
            && DecMsg(desc, a, [was]) == Some(Got([Many([Num(0)], 0)], []))
            && Clash(desc, a, a, [was], [Many([Num(0)], 0)])
            && DecMsg(desc, a + a, [was]) == None
  {
    var desc, a: seq<byte>, body: seq<byte> := ArrayOfOne(), [13, 0, 0, 0, 0], [0, 0, 0, 0];
    EntryOfOne(v);
    EntryOfOne(Num(0));
    assert ReadTag(a) == FieldTag(1, 5, body) by {
      assert a[1..] == body;
    }
    assert FixedFront(desc, a) == [0];
    DecodingComposes(desc, a, a, [Many([v], v.i % TWO32)], [Many([Num(0)], 0)], Got([Many([Num(0)], 0)], []));
  }

  lemma EntryOfOne(v: Val)
    requires v.Num?
    ensures var desc, a: seq<byte>, was := ArrayOfOne(), [13, 0, 0, 0, 0], Many([v], v.i % TWO32);
            var last := State([Many([Num(0)], 0)], Some(0), 1, {});
            DecTurn(desc, a, Start([was])) == Took(last, [])
              && DecLoop(desc, a, Start([was])) == Some(Loop(last, [], false))
  {
    var desc, a: seq<byte>, body: seq<byte> := ArrayOfOne(), [13, 0, 0, 0, 0], [0, 0, 0, 0];
    var was := Many([v], v.i % TWO32);
    var last := State([Many([Num(0)], 0)], Some(0), 1, {});
    ZeroEntry(desc.fields[0], body, v);
    assert ReadTag(a) == FieldTag(1, 5, body) by {
      assert a[1..] == body;
    }
    assert DecTurn(desc, a, Start([was])) == Took(last, []);
    assert DecLoop(desc, [], last) == Some(Loop(last, [], false));
  }

  lemma ZeroEntry(f: Field, body: seq<byte>, v: Val)
    requires v.Num? && f == ArrayOfOne().fields[0] && |body| == 4 && forall i :: 0 <= i < 4 ==> body[i] == 0
    ensures DecStatic(f, 5, body, Many([v], v.i % TWO32), 0) == Some(Got(Placed(Many([Num(0)], 0), 1), []))
  {
    ZerosAreZero(body);
    assert body[..4] == body && body[4..] == [];
    assert DecFixed(body, 4) == Some(Got(Num(0), []));
    assert OldItem(f, [v], 0) == v && DecVal(f, body, v) == DecFixed(body, 4);
    assert PutItem(f, [v], 0, Num(0)) == [Num(0)];
    assert DecRepeated(f, 5, body, Array([v], 0)) == Some(Got(Array([Num(0)], 1), []));
  }

  lemma {:induction false} ZerosAreZero(s: seq<byte>)
    requires forall i :: 0 <= i < |s| ==> s[i] == 0
    ensures FromLittleEndian(s) == 0
  {
    if s != [] {
      ZerosAreZero(s[1..]);
    }
  }

  // ----- unknown fields -----

  /** One whole field with a number that the descriptor does not have. */
  predicate Unknown(desc: Desc, u: seq<byte>) {
    match ReadTag(u)
    case FieldTag(tag, wireType, rest) =>
      FindFrom(desc, tag, 0).None? && (desc.fields == [] ==> tag != 0) && SkipField(wireType, rest) == Some([])
    case _ => false
  }

  lemma UnknownSkipped(desc: Desc, u: seq<byte>, b: seq<byte>, st: State)
    requires Unknown(desc, u)
    ensures DecLoop(desc, u + b, st) == DecLoop(desc, b, st)
  {
    assert u != [];
    assert DecLoop(desc, u, st) == Some(Loop(st, [], false));
    LoopGoesOn(desc, u, b, st);
  }

  /** An input in pieces, some of which are unknown fields. */
  datatype Piece = Known(bytes: seq<byte>) | Junk(bytes: seq<byte>)

  function Whole(pieces: seq<Piece>): seq<byte> {
    if pieces == [] then [] else pieces[0].bytes + Whole(pieces[1..])
  }

  function WithoutJunk(pieces: seq<Piece>): seq<byte> {
    if pieces == [] then [] else (if pieces[0].Known? then pieces[0].bytes else []) + WithoutJunk(pieces[1..])
  }

  /** The pieces end at field boundaries, as far as the loop gets; the last may be anything. */
  predicate AtBoundaries(desc: Desc, pieces: seq<Piece>, st: State) {
    pieces == [] ||
    match pieces[0]
    case Junk(u) => Unknown(desc, u) && AtBoundaries(desc, pieces[1..], st)
    case Known(a) =>
      pieces[1..] == [] ||
      var l := DecLoop(desc, a, st);
      l.Some? && !l.value.stopped && AtBoundaries(desc, pieces[1..], l.value.state)
  }

  lemma {:induction false} UnknownFieldsIgnored(desc: Desc, pieces: seq<Piece>, st: State)
    requires AtBoundaries(desc, pieces, st)
    ensures DecLoop(desc, Whole(pieces), st) == DecLoop(desc, WithoutJunk(pieces), st)
  {
    if pieces != [] {
      var rest := pieces[1..];
      if pieces[0].Junk? {
        UnknownSkipped(desc, pieces[0].bytes, Whole(rest), st);
        UnknownFieldsIgnored(desc, rest, st);
        assert [] + WithoutJunk(rest) == WithoutJunk(rest);
      } else if rest != [] {
        var l := DecLoop(desc, pieces[0].bytes, st).value;
        LoopGoesOn(desc, pieces[0].bytes, Whole(rest), st);
        LoopGoesOn(desc, pieces[0].bytes, WithoutJunk(rest), st);
        UnknownFieldsIgnored(desc, rest, l.state);
      }
    }
  }

  /** Inserting unknown fields never changes what a message decodes to. */
  lemma UnknownFieldsHarmless(desc: Desc, pieces: seq<Piece>, slots: seq<Slot>)
    requires AtBoundaries(desc, pieces, Start(slots))
    ensures DecMsg(desc, Whole(pieces), slots) == DecMsg(desc, WithoutJunk(pieces), slots)
  {
    UnknownFieldsIgnored(desc, pieces, Start(slots));
  }
}
