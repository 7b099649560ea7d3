/** Where the bytes of a reassembled message come from, whatever the fragments say. */
module Provenance {
  import opened Bytes
  import opened Wrappers
  import opened Reassembly
  import opened HandshakeReceiver

  /** The fragment is one of this message, and has its byte `k` as it is. */
  predicate Brings(f: Fragment, p: Partial, k: nat)
    requires p.WellFormed() && k < p.msgLen
  {
    && f.header.Fits() && f.header.msgType == p.msgType && f.header.seqNum == p.seqNum && f.header.msgLen == p.msgLen
    && f.header.fragOff <= k < f.header.fragOff + |f.body|
    && p.data[HEADER_LENGTH + k] == f.body[k - f.header.fragOff]
  }

  /** Every byte that counts as received was brought by one of these fragments. */
  ghost predicate Sourced(p: Partial, heard: seq<Fragment>)
    requires p.WellFormed()
  {
    forall k :: 0 <= k < p.msgLen && p.received[k] ==> exists f :: f in heard && Brings(f, p, k)
  }

  ghost predicate AllSourced(ring: Ring, heard: seq<Fragment>)
    requires ring.Valid()
  {
    forall i :: 0 <= i < MAX_FLIGHT && ring.slots[i].Some? ==> SlotSourced(ring, heard, i)
  }

  ghost predicate SlotSourced(ring: Ring, heard: seq<Fragment>, i: nat)
    requires ring.Valid() && i < MAX_FLIGHT && ring.slots[i].Some?
  {
    assert ring.SlotOk(i);
    Sourced(ring.slots[i].value, heard)
  }

  /** Another fragment of the same message is filled in. */
  lemma FilledSourced(p: Partial, f: Fragment, heard: seq<Fragment>)
    requires p.WellFormed() && Sourced(p, heard) && f.header.fragOff + |f.body| <= p.msgLen
    requires f.header.Fits() && f.header.msgType == p.msgType && f.header.seqNum == p.seqNum
             && f.header.msgLen == p.msgLen
    ensures Sourced(p.Accept(f.header.fragOff, f.body), heard + [f])
  {
    var off, q := f.header.fragOff, p.Accept(f.header.fragOff, f.body);
    forall k | 0 <= k < q.msgLen && q.received[k]
      ensures exists g :: g in heard + [f] && Brings(g, q, k)
    {
      if !p.Complete() && off <= k < off + |f.body| {
        assert f in heard + [f] && Brings(f, q, k);
      } else {
        var g :| g in heard && Brings(g, p, k);
        assert g in heard + [f] && Brings(g, q, k);
      }
    }
  }

  lemma MoreHeard(p: Partial, heard: seq<Fragment>, more: seq<Fragment>)
    requires p.WellFormed() && Sourced(p, heard)
    ensures Sourced(p, heard + more)
  {
    forall k | 0 <= k < p.msgLen && p.received[k]
      ensures exists f :: f in heard + more && Brings(f, p, k)
    {
      var f :| f in heard && Brings(f, p, k);
      assert f in heard + more && Brings(f, p, k);
    }
  }

  lemma RingHeardMore(ring: Ring, heard: seq<Fragment>, more: seq<Fragment>)
    requires ring.Valid() && AllSourced(ring, heard)
    ensures AllSourced(ring, heard + more)
  {
    forall i | 0 <= i < MAX_FLIGHT && ring.slots[i].Some?
      ensures SlotSourced(ring, heard + more, i)
    {
      assert SlotSourced(ring, heard, i) && ring.SlotOk(i);
      MoreHeard(ring.slots[i].value, heard, more);
    }
  }

  lemma FragmentSourced(ring: Ring, readEpoch: nat, maxLen: nat, f: Fragment, heard: seq<Fragment>)
    requires ring.Valid() && AllSourced(ring, heard) && f.header.Fits() && |f.body| == f.header.fragLen
    ensures AllSourced(AcceptFragment(ring, readEpoch, maxLen, f).0, heard + [f])
  {
    var next := AcceptFragment(ring, readEpoch, maxLen, f).0;
    RingHeardMore(ring, heard, [f]);
    if next != ring {
      var idx := f.header.seqNum % MAX_FLIGHT;
      SlotMatchesNumber(ring, f.header.seqNum);
      assert ring.slots[idx].Some? ==> SlotSourced(ring, heard, idx) && ring.SlotOk(idx);
      var p := if ring.slots[idx].Some? then ring.slots[idx].value else Blank(f.header);
      FilledSourced(p, f, heard);
      forall i | 0 <= i < MAX_FLIGHT && next.slots[i].Some?
        ensures SlotSourced(next, heard + [f], i)
      {
        assert i != idx ==> SlotSourced(ring, heard + [f], i);
      }
    }
  }

  // ----- records, and messages taken out -----

  /** The fragments of a record, as far as it parses. */
  function Fragments(record: seq<byte>): seq<Fragment>
    decreases |record|
  {
    var parsed := ParseFragment(record);
    if parsed.None? then [] else [parsed.value] + Fragments(parsed.value.rest)
  }

  lemma {:induction false} RecordSourced(ring: Ring, readEpoch: nat, maxLen: nat, record: seq<byte>,
      heard: seq<Fragment>)
    requires ring.Valid() && AllSourced(ring, heard)
    ensures AllSourced(AcceptRecord(ring, readEpoch, maxLen, record).0, heard + Fragments(record))
    decreases |record|
  {
    var parsed := ParseFragment(record);
    if parsed.None? {
      RingHeardMore(ring, heard, Fragments(record));
    } else {
      var f := parsed.value;
      var (next, outcome) := AcceptFragment(ring, readEpoch, maxLen, f);
      FragmentSourced(ring, readEpoch, maxLen, f, heard);
      OneFragment(ring, readEpoch, maxLen, record);
      assert heard + [f] + Fragments(f.rest) == heard + Fragments(record);
      if outcome.Accepted? {
        RecordSourced(next, readEpoch, maxLen, f.rest, heard + [f]);
      } else {
        RingHeardMore(next, heard + [f], Fragments(f.rest));
      }
    }
  }

  /** A record arrives, under some epoch and limit of the time; or the current message is taken out. */
  datatype Event = Arrives(record: seq<byte>, readEpoch: nat, maxLen: nat) | TakenOut

  function After(ring: Ring, e: Event): (r: Ring)
    requires ring.Valid()
    ensures r.Valid()
  {
    if e.Arrives? then AcceptRecord(ring, e.readEpoch, e.maxLen, e.record).0
    else if ring.Message().Some? then AdvanceValid(ring); ring.Advance()
    else ring
  }

  function Run(events: seq<Event>): (r: Ring)
    ensures r.Valid()
  {
    if events == [] then Ring(0, seq(MAX_FLIGHT, i => None))
      else After(Run(events[..|events| - 1]), events[|events| - 1])
  }

  function Heard(events: seq<Event>): seq<Fragment> {
    if events == [] then []
    else
      var last := events[|events| - 1];
      Heard(events[..|events| - 1]) + if last.Arrives? then Fragments(last.record) else []
  }

  lemma {:induction false} RunSourced(events: seq<Event>)
    ensures AllSourced(Run(events), Heard(events))
  {
    if events != [] {
      var before, last := events[..|events| - 1], events[|events| - 1];
      RunSourced(before);
      if last.Arrives? {
        RecordSourced(Run(before), last.readEpoch, last.maxLen, last.record, Heard(before));
      } else {
        assert Heard(events) == Heard(before);
        TakingOutKeeps(Run(before), Heard(before));
      }
    }
  }

  lemma TakingOutKeeps(ring: Ring, heard: seq<Fragment>)
    requires ring.Valid() && AllSourced(ring, heard)
    ensures AllSourced(After(ring, TakenOut), heard)
  {
    var next := After(ring, TakenOut);
    forall i | 0 <= i < MAX_FLIGHT && next.slots[i].Some?
      ensures SlotSourced(next, heard, i)
    {
      assert SlotSourced(ring, heard, i) && ring.SlotOk(i);
    }
  }

  /** The fragment has byte `k` of the message in its place, and the message's header is as it says. */
  predicate BringsTo(f: Fragment, message: seq<byte>, k: nat) {
    var h := f.header;
    && h.Fits() && |message| == HEADER_LENGTH + h.msgLen
    && message[..HEADER_LENGTH] == Header(h.msgType, h.msgLen, h.seqNum, 0, h.msgLen).Encode()
    && h.fragOff <= k < h.fragOff + |f.body| && k < h.msgLen
    && message[HEADER_LENGTH + k] == f.body[k - h.fragOff]
  }

  lemma MessageSourced(ring: Ring, heard: seq<Fragment>, k: nat) returns (f: Fragment)
    requires ring.Valid() && AllSourced(ring, heard)
    requires ring.Message().Some? && k < |ring.Message().value| - HEADER_LENGTH
    ensures f in heard && f.header.seqNum == ring.readSeq && BringsTo(f, ring.Message().value, k)
  {
    var idx := ring.readSeq % MAX_FLIGHT;
    assert SlotSourced(ring, heard, idx) && ring.SlotOk(idx);
    var p := ring.Current().value;
    assert p.received[k];
    f :| f in heard && Brings(f, p, k);
  }

  /** Whatever arrives, whatever it says and in whatever order: a message that the receiver gives out has the
      number it waits for, and for each of its bytes a fragment has arrived that has this byte in this place,
      with the type, length and number that stand in the message's header. */
  lemma EveryByteArrived(events: seq<Event>, k: nat) returns (f: Fragment)
    requires Run(events).Message().Some? && k < |Run(events).Message().value| - HEADER_LENGTH
    ensures f in Heard(events) && f.header.seqNum == Run(events).readSeq && BringsTo(f, Run(events).Message().value, k)
  {
    RunSourced(events);
    f := MessageSourced(Run(events), Heard(events), k);
  }
}
