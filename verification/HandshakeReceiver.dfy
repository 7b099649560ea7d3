/** Receiving DTLS handshake messages: the ring of partly assembled messages and the three calls that
    fill it, read from it and advance it (section 4.2.2 of RFC 6347). */
module HandshakeReceiver {
  import opened Bytes
  import opened Wrappers
  import opened Reassembly

  const AD_UNEXPECTED_MESSAGE := 10
  const AD_ILLEGAL_PARAMETER := 47
  const AD_DECODE_ERROR := 50
  const AD_INTERNAL_ERROR := 80

  datatype Outcome = Accepted | Failed(alert: nat)

  /** `handshake_read_seq` and `incoming_messages`. */
  datatype Ring = Ring(readSeq: nat, slots: seq<Option<Partial>>) {

    /** Every occupied slot holds a message of the current window, in the slot its number selects. */
    predicate Valid() {
      && readSeq < 0x1_0000
      && |slots| == MAX_FLIGHT
      && forall i :: 0 <= i < MAX_FLIGHT && slots[i].Some? ==> SlotOk(i)
    }

    predicate SlotOk(i: nat)
      requires |slots| == MAX_FLIGHT && i < MAX_FLIGHT && slots[i].Some?
    {
      var p := slots[i].value;
      p.WellFormed() && p.seqNum % MAX_FLIGHT == i && readSeq <= p.seqNum < readSeq + MAX_FLIGHT
    }

    function Current(): (p: Option<Partial>)
      requires Valid()
      ensures p.Some? ==> p.value.WellFormed() && p.value.seqNum == readSeq
    {
      assert slots[readSeq % MAX_FLIGHT].Some? ==> SlotOk(readSeq % MAX_FLIGHT);
      slots[readSeq % MAX_FLIGHT]
    }

    /** The complete message `dtls1_get_message` would return, header included. */
    function Message(): Option<seq<byte>>
      requires Valid()
    {
      if Current().Some? && Current().value.Complete() then Some(Current().value.data) else None
    }

    /** `dtls1_next_message`: the number wraps at 16 bits. */
    function Advance(): (r: Ring)
      requires Valid() && Message().Some?
    {
      Ring((readSeq + 1) % 0x1_0000, slots[readSeq % MAX_FLIGHT := None])
    }
  }

  /** The fragment loop body of `dtls1_open_handshake`, with `dtls1_get_incoming_message`. Note that a
      number exactly `MAX_FLIGHT` ahead is not ignored but refused. */
  function AcceptFragment(ring: Ring, readEpoch: nat, maxLen: nat, fragment: Fragment): (r: (Ring, Outcome))
    requires ring.Valid()
    requires fragment.header.Fits() && |fragment.body| == fragment.header.fragLen
    ensures r.0.Valid() && r.0.readSeq == ring.readSeq
  {
    var h := fragment.header;
    if h.fragOff > h.msgLen || h.fragOff + h.fragLen > h.msgLen || h.msgLen > maxLen then
      (ring, Failed(AD_ILLEGAL_PARAMETER))
    else if readEpoch == 1 && h.seqNum != ring.readSeq then
      (ring, Failed(AD_UNEXPECTED_MESSAGE))
    else if h.seqNum < ring.readSeq || h.seqNum > ring.readSeq + MAX_FLIGHT then
      (ring, Accepted)
    else if h.seqNum - ring.readSeq >= MAX_FLIGHT then
      (ring, Failed(AD_INTERNAL_ERROR))
    else
      var idx := h.seqNum % MAX_FLIGHT;
      assert ring.slots[idx].Some? ==> ring.SlotOk(idx);
      if ring.slots[idx].Some? && (ring.slots[idx].value.msgType != h.msgType
        || ring.slots[idx].value.msgLen != h.msgLen) then
        (ring, Failed(AD_ILLEGAL_PARAMETER))
      else
        var p := if ring.slots[idx].Some? then ring.slots[idx].value else Blank(h);
        var r := Ring(ring.readSeq, ring.slots[idx := Some(p.Accept(h.fragOff, fragment.body))]);
        assert forall i :: 0 <= i < MAX_FLIGHT && r.slots[i].Some? && i != idx ==> ring.SlotOk(i);
        (r, Accepted)
  }

  /** All the fragments of one record, in order, up to the first failure. */
  function AcceptRecord(ring: Ring, readEpoch: nat, maxLen: nat, record: seq<byte>): (r: (Ring, Outcome))
    requires ring.Valid()
    ensures r.0.Valid() && r.0.readSeq == ring.readSeq
    decreases |record|
  {
    if record == [] then (ring, Accepted)
    else
      match ParseFragment(record)
      case None => (ring, Failed(AD_DECODE_ERROR))
      case Some(fragment) =>
        var (next, outcome) := AcceptFragment(ring, readEpoch, maxLen, fragment);
        if outcome.Accepted? then AcceptRecord(next, readEpoch, maxLen, fragment.rest) else (next, outcome)
  }

  /** A batch of records, in the order they arrive, up to the first failure. */
  function AcceptAll(ring: Ring, readEpoch: nat, maxLen: nat, records: seq<seq<byte>>): (r: (Ring, Outcome))
    requires ring.Valid()
    ensures r.0.Valid() && r.0.readSeq == ring.readSeq
    decreases |records|
  {
    if records == [] then (ring, Accepted)
    else
      var (next, outcome) := AcceptRecord(ring, readEpoch, maxLen, records[0]);
      if outcome.Failed? then (next, outcome) else AcceptAll(next, readEpoch, maxLen, records[1..])
  }

  /** Bytes behind a fragment do not change how it parses. */
  lemma ParseMore(s: seq<byte>, more: seq<byte>)
    requires ParseFragment(s).Some?
    ensures var f := ParseFragment(s).value; ParseFragment(s + more) == Some(Fragment(f.header, f.body, f.rest + more))
  {
    var f := ParseFragment(s).value;
    var tail := s[HEADER_LENGTH..];
    assert (s + more)[HEADER_LENGTH..] == tail + more;
    assert (tail + more)[..|f.body|] == f.body && (tail + more)[|f.body|..] == f.rest + more;
    assert s[1..] + more == (s + more)[1..];
  }

  /** One whole fragment and nothing else. */
  predicate IsFragment(s: seq<byte>) {
    ParseFragment(s).Some? && ParseFragment(s).value.rest == []
  }

  /** The first fragment of a record is accepted like a record of its own, and then what follows it. */
  lemma FirstFragment(ring: Ring, readEpoch: nat, maxLen: nat, first: seq<byte>, more: seq<byte>)
    requires ring.Valid() && IsFragment(first)
    ensures var (next, outcome) := AcceptRecord(ring, readEpoch, maxLen, first);
            AcceptRecord(ring, readEpoch, maxLen, first + more) ==
            if outcome.Failed? then (next, outcome) else AcceptRecord(next, readEpoch, maxLen, more)
  {
    ParseMore(first, more);
    assert [] + more == more;
    OneFragment(ring, readEpoch, maxLen, first);
    OneFragment(ring, readEpoch, maxLen, first + more);
  }

  lemma OneFragment(ring: Ring, readEpoch: nat, maxLen: nat, record: seq<byte>)
    requires ring.Valid() && ParseFragment(record).Some?
    ensures var f := ParseFragment(record).value;
            var (next, outcome) := AcceptFragment(ring, readEpoch, maxLen, f);
            AcceptRecord(ring, readEpoch, maxLen, record) ==
            if outcome.Failed? then (next, outcome) else AcceptRecord(next, readEpoch, maxLen, f.rest)
  {
  }

  /** A record of several fragments is accepted like that many records, and then what follows them. */
  lemma {:induction false} RecordIsFragments(ring: Ring, readEpoch: nat, maxLen: nat, fragments: seq<seq<byte>>,
      tail: seq<byte>)
    requires ring.Valid() && forall i :: 0 <= i < |fragments| ==> IsFragment(fragments[i])
    ensures var (next, outcome) := AcceptAll(ring, readEpoch, maxLen, fragments);
            AcceptRecord(ring, readEpoch, maxLen, Flatten(fragments) + tail) ==
            if outcome.Failed? then (next, outcome) else AcceptRecord(next, readEpoch, maxLen, tail)
    decreases |fragments|
  {
    if fragments == [] {
      assert [] + tail == tail;
    } else {
      var next := AcceptRecord(ring, readEpoch, maxLen, fragments[0]).0;
      RecordIsFragments(next, readEpoch, maxLen, fragments[1..], tail);
      FirstFragment(ring, readEpoch, maxLen, fragments[0], Flatten(fragments[1..]) + tail);
      assert Flatten(fragments) + tail == fragments[0] + (Flatten(fragments[1..]) + tail);
    }
  }

  lemma OnlyFragments(ring: Ring, readEpoch: nat, maxLen: nat, fragments: seq<seq<byte>>)
    requires ring.Valid() && forall i :: 0 <= i < |fragments| ==> IsFragment(fragments[i])
    ensures AcceptRecord(ring, readEpoch, maxLen, Flatten(fragments)) == AcceptAll(ring, readEpoch, maxLen, fragments)
  {
    RecordIsFragments(ring, readEpoch, maxLen, fragments, []);
    assert Flatten(fragments) + [] == Flatten(fragments);
    assert AcceptRecord(AcceptAll(ring, readEpoch, maxLen, fragments).0, readEpoch, maxLen, []).1.Accepted?;
  }

  /** Nothing more and nothing less: the fragments of a record are accepted like records of their own; and
      behind them, what does not parse is a decode error, unless one of them has failed before. */
  lemma WholeRecord(ring: Ring, readEpoch: nat, maxLen: nat, fragments: seq<seq<byte>>, junk: seq<byte>)
    requires ring.Valid() && forall i :: 0 <= i < |fragments| ==> IsFragment(fragments[i])
    requires junk != [] && ParseFragment(junk).None?
    ensures var (next, outcome) := AcceptAll(ring, readEpoch, maxLen, fragments);
            && AcceptRecord(ring, readEpoch, maxLen, Flatten(fragments)) == (next, outcome)
            && AcceptRecord(ring, readEpoch, maxLen, Flatten(fragments) + junk) ==
               (next, if outcome.Failed? then outcome else Failed(AD_DECODE_ERROR))
  {
    OnlyFragments(ring, readEpoch, maxLen, fragments);
    RecordIsFragments(ring, readEpoch, maxLen, fragments, junk);
  }

  lemma {:induction false} AcceptAppended(ring: Ring, readEpoch: nat, maxLen: nat, a: seq<seq<byte>>, b: seq<seq<byte>>)
    requires ring.Valid()
    ensures var (next, outcome) := AcceptAll(ring, readEpoch, maxLen, a);
            AcceptAll(ring, readEpoch, maxLen, a + b) ==
            if outcome.Failed? then (next, outcome) else AcceptAll(next, readEpoch, maxLen, b)
    decreases |a|
  {
    if a == [] {
      assert a + b == b;
    } else {
      assert (a + b)[1..] == a[1..] + b;
      AcceptAppended(AcceptRecord(ring, readEpoch, maxLen, a[0]).0, readEpoch, maxLen, a[1..], b);
    }
  }

  /** Records of so many fragments each. */
  function Records(groups: seq<seq<seq<byte>>>): (r: seq<seq<byte>>)
    ensures |r| == |groups|
  {
    seq(|groups|, i requires 0 <= i < |groups| => Flatten(groups[i]))
  }

  predicate AreFragments(groups: seq<seq<seq<byte>>>) {
    forall i, j :: 0 <= i < |groups| && 0 <= j < |groups[i]| ==> IsFragment(groups[i][j])
  }

  /** However fragments are put together to records, they are accepted alike. */
  lemma {:induction false} GroupingDoesNotMatter(ring: Ring, readEpoch: nat, maxLen: nat, groups: seq<seq<seq<byte>>>)
    requires ring.Valid() && AreFragments(groups)
    ensures AcceptAll(ring, readEpoch, maxLen, Records(groups)) == AcceptAll(ring, readEpoch, maxLen, Flatten(groups))
    decreases |groups|
  {
    if groups != [] {
      var first, rest := groups[0], groups[1..];
      assert Records(groups)[1..] == Records(rest);
      OnlyFragments(ring, readEpoch, maxLen, first);
      GroupingDoesNotMatter(AcceptAll(ring, readEpoch, maxLen, first).0, readEpoch, maxLen, rest);
      AcceptAppended(ring, readEpoch, maxLen, first, Flatten(rest));
    }
  }

  /** The window invariant survives an advance, also when the 16-bit number wraps to zero: then no slot
      but the current one can be occupied. */
  lemma AdvanceValid(ring: Ring)
    requires ring.Valid() && ring.Message().Some?
    ensures ring.Advance().Valid()
  {
    var next := ring.Advance();
    forall i | 0 <= i < MAX_FLIGHT && next.slots[i].Some?
      ensures next.SlotOk(i)
    {
      assert ring.SlotOk(i);
      assert ring.slots[i].value.seqNum != ring.readSeq;
    }
  }

  /** The assertion in `dtls1_get_incoming_message`: a slot found occupied belongs to the number asked
      for. */
  lemma SlotMatchesNumber(ring: Ring, seqNum: nat)
    requires ring.Valid() && ring.readSeq <= seqNum < ring.readSeq + MAX_FLIGHT
    ensures ring.slots[seqNum % MAX_FLIGHT].Some? ==> ring.slots[seqNum % MAX_FLIGHT].value.seqNum == seqNum
  {
    var idx := seqNum % MAX_FLIGHT;
    if ring.slots[idx].Some? {
      assert ring.SlotOk(idx);
    }
  }

  /** Opening a slot for a message of the window keeps the ring valid and the current message as it is. */
  lemma InsertBlank(ring: Ring, h: Header)
    requires ring.Valid() && h.Fits() && ring.readSeq <= h.seqNum < ring.readSeq + MAX_FLIGHT
    requires ring.slots[h.seqNum % MAX_FLIGHT].None?
    ensures var next := Ring(ring.readSeq, ring.slots[h.seqNum % MAX_FLIGHT := Some(Blank(h))]);
            next.Valid() && (ring.Message().Some? ==> next.Message() == ring.Message())
  {
    var next := Ring(ring.readSeq, ring.slots[h.seqNum % MAX_FLIGHT := Some(Blank(h))]);
    forall i | 0 <= i < MAX_FLIGHT && next.slots[i].Some?
      ensures next.SlotOk(i)
    {
      assert i != h.seqNum % MAX_FLIGHT ==> ring.SlotOk(i);
    }
  }

  /** Filling a slot keeps the ring valid, and a complete message stays as it is. */
  lemma FillKeeps(ring: Ring, idx: nat, off: nat, body: seq<byte>)
    requires ring.Valid() && idx < MAX_FLIGHT && ring.slots[idx].Some?
    requires ring.slots[idx].value.WellFormed() && off + |body| <= ring.slots[idx].value.msgLen
    ensures var next := Ring(ring.readSeq, ring.slots[idx := Some(ring.slots[idx].value.Accept(off, body))]);
            next.Valid() && (ring.Message().Some? ==> next.Message() == ring.Message())
  {
    var next := Ring(ring.readSeq, ring.slots[idx := Some(ring.slots[idx].value.Accept(off, body))]);
    forall i | 0 <= i < MAX_FLIGHT && next.slots[i].Some?
      ensures next.SlotOk(i)
    {
      assert ring.SlotOk(i);
    }
  }

  datatype OpenResult = OpenSuccess | OpenDiscard | OpenError(alert: nat)

  class Receiver {
    var readSeq: nat
    const incoming: array<HmFragment?>
    var hasMessage: bool
    var hasChangeCipherSpec: bool
    ghost var slots: seq<Option<Partial>>
    ghost var Repr: set<object>

    ghost predicate Valid()
      reads this, Repr
    {
      && this in Repr && incoming in Repr
      && incoming.Length == MAX_FLIGHT && Ring(readSeq, slots).Valid()
      && (forall i :: 0 <= i < MAX_FLIGHT ==> Linked(i))
      && (forall i, j :: 0 <= i < j < MAX_FLIGHT && incoming[i] != null && incoming[j] != null ==>
            incoming[i].Repr !! incoming[j].Repr)
      && (hasMessage ==> Ring(readSeq, slots).Message().Some?)
    }

    /** Slot `i` of the array holds what `slots` says it does. */
    ghost predicate Linked(i: nat)
      requires i < MAX_FLIGHT == incoming.Length == |slots| && incoming in Repr
      reads this, Repr
    {
      && (incoming[i] == null <==> slots[i].None?)
      && (incoming[i] != null ==>
            && incoming[i] in Repr && incoming[i].Repr <= Repr
            && this !in incoming[i].Repr && incoming !in incoming[i].Repr
            && incoming[i].Valid() && incoming[i].View() == slots[i].value)
    }

    ghost function View(): (ring: Ring)
      requires Valid()
      reads this, Repr
      ensures ring.Valid()
    {
      Ring(readSeq, slots)
    }

    constructor ()
      ensures Valid() && fresh(Repr)
      ensures View() == Ring(0, seq(MAX_FLIGHT, i => None)) && !hasMessage && !hasChangeCipherSpec
    {
      readSeq, hasMessage, hasChangeCipherSpec := 0, false, false;
      var slots := new HmFragment?[MAX_FLIGHT](i => null);
      incoming := slots;
      this.slots := seq(MAX_FLIGHT, i => None);
      Repr := {this, slots};
    }

    /** `dtls1_get_incoming_message`. */
    method GetIncomingMessage(h: Header) returns (fragment: HmFragment?, outcome: Outcome)
      requires Valid() && h.Fits()
      modifies this`Repr, this`slots, incoming
      ensures Valid() && fresh(Repr - old(Repr)) && old(Repr) <= Repr
      ensures (fragment == null <==> outcome.Failed?) && (fragment == null ==> slots == old(slots))
      ensures !(readSeq <= h.seqNum < readSeq + MAX_FLIGHT) ==> outcome == Failed(AD_INTERNAL_ERROR)
      ensures readSeq <= h.seqNum < readSeq + MAX_FLIGHT ==>
                var idx := h.seqNum % MAX_FLIGHT;
                var p := if old(slots)[idx].Some? then old(slots)[idx].value else Blank(h);
                if p.msgType != h.msgType || p.msgLen != h.msgLen then outcome == Failed(AD_ILLEGAL_PARAMETER)
                else fragment != null && fragment == incoming[idx] && slots == old(slots)[idx := Some(p)]
    {
      if h.seqNum < readSeq || h.seqNum - readSeq >= MAX_FLIGHT {
        return null, Failed(AD_INTERNAL_ERROR);
      }
      outcome := Accepted;
      var idx := h.seqNum % MAX_FLIGHT;
      SlotMatchesNumber(View(), h.seqNum);
      assert Linked(idx);
      fragment := incoming[idx];
      if fragment != null {
        if fragment.msgType != h.msgType || fragment.msgLen != h.msgLen {
          return null, Failed(AD_ILLEGAL_PARAMETER);
        }
        assert slots == slots[idx := Some(fragment.View())];
        return fragment, Accepted;
      }
      InsertBlank(View(), h);
      fragment := new HmFragment(h);
      Insert(idx, fragment, h);
    }

    method Insert(idx: nat, fragment: HmFragment, ghost h: Header)
      requires Valid() && idx < MAX_FLIGHT && incoming[idx] == null
      requires h.Fits() && fragment.Valid() && fragment.View() == Blank(h) && fragment.Repr !! Repr
      requires var next := Ring(readSeq, slots[idx := Some(Blank(h))]);
               next.Valid() && (hasMessage ==> next.Message().Some?)
      modifies this`Repr, this`slots, incoming
      ensures Valid() && Repr == old(Repr) + fragment.Repr
      ensures incoming[idx] == fragment && slots == old(slots)[idx := Some(Blank(h))]
    {
      incoming[idx] := fragment;
      slots := slots[idx := Some(Blank(h))];
      Repr := Repr + fragment.Repr;
      forall i | 0 <= i < MAX_FLIGHT
        ensures Linked(i)
      {
        assert i != idx ==> old(Linked(i));
      }
      forall i, j | 0 <= i < j < MAX_FLIGHT && incoming[i] != null && incoming[j] != null
        ensures incoming[i].Repr !! incoming[j].Repr
      {
        assert i != idx ==> old(Linked(i));
        assert j != idx ==> old(Linked(j));
      }
    }

    /** Copy a fragment's body into the message in slot `idx`. */
    method Fill(idx: nat, off: nat, body: seq<byte>)
      requires Valid() && idx < MAX_FLIGHT && incoming[idx] != null
      requires off + |body| <= incoming[idx].msgLen
      requires slots[idx].Some? && slots[idx].value.WellFormed() && slots[idx].value.msgLen == incoming[idx].msgLen
      modifies this`slots, incoming[idx].Repr
      ensures Valid() && slots == old(slots)[idx := Some(old(slots)[idx].value.Accept(off, body))]
    {
      FillKeeps(View(), idx, off, body);
      assert Linked(idx);
      incoming[idx].Accept(off, body);
      slots := slots[idx := Some(slots[idx].value.Accept(off, body))];
      forall i | 0 <= i < MAX_FLIGHT
        ensures Linked(i)
      {
        assert old(Linked(i));
      }
    }

    /** One round of the fragment loop of `dtls1_open_handshake`. */
    method AcceptOne(readEpoch: nat, maxLen: nat, fragment: Fragment) returns (outcome: Outcome)
      requires Valid()
      requires fragment.header.Fits() && |fragment.body| == fragment.header.fragLen
      modifies Repr
      ensures Valid() && fresh(Repr - old(Repr))
      ensures (View(), outcome) == AcceptFragment(old(View()), readEpoch, maxLen, fragment)
      ensures hasMessage == old(hasMessage) && hasChangeCipherSpec == old(hasChangeCipherSpec)
    {
      var h := fragment.header;
      if h.fragOff > h.msgLen || h.fragOff + h.fragLen > h.msgLen || h.msgLen > maxLen {
        return Failed(AD_ILLEGAL_PARAMETER);
      }
      if readEpoch == 1 && h.seqNum != readSeq {
        return Failed(AD_UNEXPECTED_MESSAGE);
      }
      if h.seqNum < readSeq || h.seqNum > readSeq + MAX_FLIGHT {
        return Accepted;
      }
      var message;
      message, outcome := GetIncomingMessage(h);
      if message == null {
        return;
      }
      assert Linked(h.seqNum % MAX_FLIGHT);
      Fill(h.seqNum % MAX_FLIGHT, h.fragOff, fragment.body);
      assert slots == AcceptFragment(old(View()), readEpoch, maxLen, fragment).0.slots;
      return Accepted;
    }

    /** `dtls1_open_handshake` on an opened record. */
    method OpenHandshake(recordType: byte, record: seq<byte>, nullCipher: bool, readEpoch: nat, maxLen: nat)
      returns (result: OpenResult)
      requires Valid()
      modifies Repr
      ensures Valid() && fresh(Repr - old(Repr)) && hasMessage == old(hasMessage)
      ensures recordType == RT_HANDSHAKE ==>
                var (ring, outcome) := AcceptRecord(old(View()), readEpoch, maxLen, record);
                && View() == ring && hasChangeCipherSpec == old(hasChangeCipherSpec)
                && result == (if outcome.Accepted? then OpenSuccess else OpenError(outcome.alert))
      ensures recordType != RT_HANDSHAKE ==> View() == old(View())
      ensures recordType == RT_APPLICATION_DATA ==>
                result == if nullCipher then OpenError(AD_UNEXPECTED_MESSAGE) else OpenDiscard
      ensures recordType == RT_CHANGE_CIPHER_SPEC ==>
                result == if !nullCipher then OpenError(AD_UNEXPECTED_MESSAGE)
                          else if record != [1] then OpenError(AD_ILLEGAL_PARAMETER)
                          else OpenSuccess
      ensures hasChangeCipherSpec <==>
                old(hasChangeCipherSpec) || (recordType == RT_CHANGE_CIPHER_SPEC && result.OpenSuccess?)
      ensures recordType !in {RT_HANDSHAKE, RT_APPLICATION_DATA, RT_CHANGE_CIPHER_SPEC} ==>
                result == OpenError(AD_UNEXPECTED_MESSAGE)
    {
      if recordType == RT_APPLICATION_DATA {
        return if nullCipher then OpenError(AD_UNEXPECTED_MESSAGE) else OpenDiscard;
      } else if recordType == RT_CHANGE_CIPHER_SPEC {
        if !nullCipher {
          return OpenError(AD_UNEXPECTED_MESSAGE);
        }
        if |record| != 1 || record[0] != 1 {
          return OpenError(AD_ILLEGAL_PARAMETER);
        }
        hasChangeCipherSpec := true;
        forall i | 0 <= i < MAX_FLIGHT
          ensures Linked(i)
        {
          assert old(Linked(i));
        }
        return OpenSuccess;
      } else if recordType != RT_HANDSHAKE {
        return OpenError(AD_UNEXPECTED_MESSAGE);
      }

      var rest := record;
      while rest != []
        invariant Valid() && fresh(Repr - old(Repr))
        invariant hasMessage == old(hasMessage) && hasChangeCipherSpec == old(hasChangeCipherSpec)
        invariant AcceptRecord(old(View()), readEpoch, maxLen, record) == AcceptRecord(View(), readEpoch, maxLen, rest)
        decreases |rest|
      {
        var parsed := ParseFragment(rest);
        if parsed.None? {
          return OpenError(AD_DECODE_ERROR);
        }
        var outcome := AcceptOne(readEpoch, maxLen, parsed.value);
        if outcome.Failed? {
          return OpenError(outcome.alert);
        }
        rest := parsed.value.rest;
      }
      return OpenSuccess;
    }

    /** `dtls1_is_current_message_complete`. */
    method IsCurrentComplete() returns (complete: bool)
      requires Valid()
      ensures complete <==> View().Message().Some?
    {
      var idx := readSeq % MAX_FLIGHT;
      assert Linked(idx);
      if incoming[idx] != null {
        incoming[idx].ViewComplete();
      }
      return incoming[idx] != null && incoming[idx].reassembly == null;
    }

    /** `dtls1_get_message`: the whole message with its header. */
    method GetMessage() returns (raw: Option<seq<byte>>)
      requires Valid()
      modifies this`hasMessage
      ensures Valid() && View() == old(View())
      ensures raw == View().Message() && (hasMessage <==> old(hasMessage) || raw.Some?)
    {
      var complete := IsCurrentComplete();
      if !complete {
        return None;
      }
      assert Linked(readSeq % MAX_FLIGHT);
      hasMessage := true;
      var raw' := incoming[readSeq % MAX_FLIGHT].data[..];
      forall i | 0 <= i < MAX_FLIGHT
        ensures Linked(i)
      {
        assert old(Linked(i));
      }
      return Some(raw');
    }

    /** `dtls1_next_message`. */
    method NextMessage()
      requires Valid() && hasMessage
      modifies this`readSeq, this`hasMessage, this`slots, incoming
      ensures Valid() && View() == old(View()).Advance() && !hasMessage
    {
      AdvanceValid(View());
      var index := readSeq % MAX_FLIGHT;
      incoming[index] := null;
      slots := slots[index := None];
      readSeq := (readSeq + 1) % 0x1_0000;
      hasMessage := false;
      forall i | 0 <= i < MAX_FLIGHT
        ensures Linked(i)
      {
        assert old(Linked(i));
      }
    }

    /** `dtls_has_unprocessed_handshake_data`. */
    method HasUnprocessedData() returns (leftover: bool)
      requires Valid()
      ensures leftover <==>
              || hasChangeCipherSpec
              || exists i :: 0 <= i < MAX_FLIGHT && slots[i].Some? && !(hasMessage && i == readSeq % MAX_FLIGHT)
    {
      if hasChangeCipherSpec {
        return true;
      }
      var current := readSeq % MAX_FLIGHT;
      for i := 0 to MAX_FLIGHT
        invariant forall j :: 0 <= j < i && slots[j].Some? ==> hasMessage && j == current
      {
        assert Linked(i);
        if hasMessage && i == current {
          continue;
        }
        if incoming[i] != null {
          return true;
        }
      }
      return false;
    }
  }
}
