/** The DTLS handshake transport end to end: an honest sender, a network that loses, repeats and
    reorders records at will, and the receiver (sections 4.2.2 to 4.2.4 of RFC 6347). */
module DtlsTransport {
  import opened Bytes
  import opened Wrappers
  import opened Reassembly
  import opened HandshakeReceiver
  import opened RecordWriter
  import opened FlightSender

  /** A finished message that carries the number `k`. */
  predicate Numbered(raw: seq<byte>, k: nat) {
    && IsMessage(raw)
    && var f := ParseFragment(raw).value;
       f.header.seqNum == k && raw == f.header.Encode() + f.body
  }

  ghost predicate AllNumbered(history: seq<seq<byte>>) {
    |history| < 0x1_0000 && forall k :: 0 <= k < |history| ==> Numbered(history[k], k)
  }

  /** What the receiver holds of a message agrees with the message, header included. */
  ghost predicate Agrees(p: Partial, raw: seq<byte>) {
    && p.WellFormed() && Numbered(raw, p.seqNum)
    && ParseFragment(raw).value.header == Header(p.msgType, p.msgLen, p.seqNum, 0, p.msgLen)
    && forall i :: 0 <= i < p.msgLen && p.received[i] ==> p.data[HEADER_LENGTH + i] == raw[HEADER_LENGTH + i]
  }

  ghost predicate RingAgrees(ring: Ring, history: seq<seq<byte>>) {
    && ring.Valid()
    && forall i :: 0 <= i < MAX_FLIGHT && ring.slots[i].Some? ==>
         ring.slots[i].value.seqNum < |history| && Agrees(ring.slots[i].value, history[ring.slots[i].value.seqNum])
  }

  // ----- one record -----

  /** A genuine record parses as the piece it is, and nothing else. */
  lemma PieceParses(raw: seq<byte>, k: nat, off: nat, len: nat)
    requires Numbered(raw, k) && off + len <= |MessageBody(raw)|
    ensures var h := ParseFragment(raw).value.header;
            ParseFragment(Piece(raw, off, len)) ==
            Some(Fragment(h.(fragOff := off, fragLen := len), MessageBody(raw)[off..off + len], []))
  {
    var h := ParseFragment(raw).value.header.(fragOff := off, fragLen := len);
    var body := MessageBody(raw)[off..off + len];
    assert Piece(raw, off, len) == h.Encode() + body + [];
    ParseEncoded(h, body, []);
  }

  /** Why the receiver may refuse a genuine piece of message `k`: never because it contradicts what has
      arrived before. */
  predicate Refused(ring: Ring, readEpoch: nat, maxLen: nat, k: nat, msgLen: nat) {
    || msgLen > maxLen
    || (readEpoch == 1 && k != ring.readSeq)
    || k == ring.readSeq + MAX_FLIGHT
  }

  lemma BlankAgrees(raw: seq<byte>, k: nat, off: nat, len: nat)
    requires Numbered(raw, k) && off + len <= |MessageBody(raw)|
    ensures Agrees(Blank(ParseFragment(raw).value.header.(fragOff := off, fragLen := len)), raw)
  {
  }

  lemma AcceptAgrees(p: Partial, raw: seq<byte>, off: nat, len: nat)
    requires Agrees(p, raw) && off + len <= |MessageBody(raw)|
    ensures Agrees(p.Accept(off, MessageBody(raw)[off..off + len]), raw)
    ensures var q := p.Accept(off, MessageBody(raw)[off..off + len]);
            forall i :: 0 <= i < p.msgLen ==> (q.received[i] <==> p.received[i] || off <= i < off + len)
  {
    assert MessageBody(raw) == raw[HEADER_LENGTH..];
  }

  /** Whether byte `b` of message `k` has arrived. */
  predicate Arrived(ring: Ring, k: nat, b: nat)
    requires ring.Valid()
  {
    && ring.slots[k % MAX_FLIGHT].Some?
    && var p := ring.slots[k % MAX_FLIGHT].value;
       p.seqNum == k && b < |p.received| && p.received[b]
  }

  predicate InWindow(ring: Ring, k: nat) {
    ring.readSeq <= k < ring.readSeq + MAX_FLIGHT
  }

  /** From `ring` to `next`, exactly bytes `off` to `off + len` of message `k` have been marked, if that
      message is in the window; all other slots are as they were. */
  ghost predicate MarksOnly(ring: Ring, next: Ring, k: nat, off: nat, len: nat)
    requires ring.Valid() && next.Valid()
  {
    if InWindow(ring, k) then
      && next.slots[k % MAX_FLIGHT].Some? && next.slots[k % MAX_FLIGHT].value.seqNum == k
      && (forall i :: 0 <= i < MAX_FLIGHT && i != k % MAX_FLIGHT ==> next.slots[i] == ring.slots[i])
      && (forall b: nat :: Arrived(next, k, b) <==>
            b < |next.slots[k % MAX_FLIGHT].value.received| && (Arrived(ring, k, b) || off <= b < off + len))
    else next == ring
  }

  lemma AcceptPiece(ring: Ring, history: seq<seq<byte>>, readEpoch: nat, maxLen: nat, k: nat, off: nat, len: nat,
      fragment: Fragment)
    requires AllNumbered(history) && RingAgrees(ring, history)
    requires k < |history| && off + len <= |MessageBody(history[k])|
    requires fragment.header == ParseFragment(history[k]).value.header.(fragOff := off, fragLen := len)
    requires fragment.body == MessageBody(history[k])[off..off + len]
    ensures var (next, outcome) := AcceptFragment(ring, readEpoch, maxLen, fragment);
            && RingAgrees(next, history)
            && (outcome.Failed? <==> Refused(ring, readEpoch, maxLen, k, |MessageBody(history[k])|))
            && (outcome.Failed? ==> next == ring)
            && (outcome.Accepted? ==> MarksOnly(ring, next, k, off, len))
  {
    if InWindow(ring, k) {
      var idx := k % MAX_FLIGHT;
      SlotMatchesNumber(ring, k);
      var p := if ring.slots[idx].Some? then ring.slots[idx].value else Blank(fragment.header);
      BlankAgrees(history[k], k, off, len);
      AcceptAgrees(p, history[k], off, len);
    }
  }

  /** A genuine record leaves the receiver in agreement with the sender. It is refused in exactly three
      cases, and otherwise marks exactly its own bytes. */
  lemma AcceptGenuine(ring: Ring, history: seq<seq<byte>>, readEpoch: nat, maxLen: nat, k: nat, off: nat, len: nat)
    requires AllNumbered(history) && RingAgrees(ring, history)
    requires k < |history| && off + len <= |MessageBody(history[k])|
    ensures var (next, outcome) := AcceptRecord(ring, readEpoch, maxLen, Piece(history[k], off, len));
            && RingAgrees(next, history) && next.readSeq == ring.readSeq
            && (outcome.Failed? <==> Refused(ring, readEpoch, maxLen, k, |MessageBody(history[k])|))
            && (outcome.Failed? ==> next == ring)
            && (outcome.Accepted? ==> MarksOnly(ring, next, k, off, len))
  {
    PieceParses(history[k], k, off, len);
    var record := Piece(history[k], off, len);
    var fragment := ParseFragment(record).value;
    AcceptPiece(ring, history, readEpoch, maxLen, k, off, len, fragment);
    assert AcceptRecord(ring, readEpoch, maxLen, record) == AcceptFragment(ring, readEpoch, maxLen, fragment);
  }

  // ----- records of several pieces -----

  ghost predicate PiecesOf(history: seq<seq<byte>>, pieces: seq<seq<byte>>) {
    forall i :: 0 <= i < |pieces| ==> Genuine(history, pieces[i])
  }

  /** Any number of pieces of any messages. */
  ghost predicate GenuineRecord(history: seq<seq<byte>>, record: seq<byte>) {
    exists pieces: seq<seq<byte>> :: PiecesOf(history, pieces) && record == Flatten(pieces)
  }

  lemma RecordLater(history: seq<seq<byte>>, data: seq<byte>, record: seq<byte>)
    requires GenuineRecord(history, record)
    ensures GenuineRecord(history + [data], record)
  {
    var pieces: seq<seq<byte>> :| PiecesOf(history, pieces) && record == Flatten(pieces);
    forall i | 0 <= i < |pieces|
      ensures Genuine(history + [data], pieces[i])
    {
      GenuineLater(history, data, pieces[i]);
    }
    assert PiecesOf(history + [data], pieces);
  }

  lemma PieceIsFragment(history: seq<seq<byte>>, piece: seq<byte>)
    requires AllNumbered(history) && Genuine(history, piece)
    ensures IsFragment(piece)
  {
    var k, off: nat, len: nat :|
      0 <= k < |history| && IsMessage(history[k]) && off + len <= |MessageBody(history[k])|
        && piece == Piece(history[k], off, len);
    PieceParses(history[k], k, off, len);
  }

  lemma AcceptKeeps(ring: Ring, history: seq<seq<byte>>, readEpoch: nat, maxLen: nat, piece: seq<byte>)
    requires AllNumbered(history) && RingAgrees(ring, history) && Genuine(history, piece)
    ensures var next := AcceptRecord(ring, readEpoch, maxLen, piece).0;
            RingAgrees(next, history) && next.readSeq == ring.readSeq
  {
    var k, off: nat, len: nat :|
      0 <= k < |history| && IsMessage(history[k]) && off + len <= |MessageBody(history[k])|
        && piece == Piece(history[k], off, len);
    AcceptGenuine(ring, history, readEpoch, maxLen, k, off, len);
  }

  lemma {:induction false} AcceptAllKeeps(ring: Ring, history: seq<seq<byte>>, readEpoch: nat, maxLen: nat,
      pieces: seq<seq<byte>>)
    requires AllNumbered(history) && RingAgrees(ring, history) && PiecesOf(history, pieces)
    ensures RingAgrees(AcceptAll(ring, readEpoch, maxLen, pieces).0, history)
    decreases |pieces|
  {
    if pieces != [] {
      AcceptKeeps(ring, history, readEpoch, maxLen, pieces[0]);
      AcceptAllKeeps(AcceptRecord(ring, readEpoch, maxLen, pieces[0]).0, history, readEpoch, maxLen, pieces[1..]);
    }
  }

  /** Such a record leaves the receiver in agreement with the sender. */
  lemma AcceptRecordKeeps(ring: Ring, history: seq<seq<byte>>, readEpoch: nat, maxLen: nat, record: seq<byte>)
    requires AllNumbered(history) && RingAgrees(ring, history) && GenuineRecord(history, record)
    ensures var next := AcceptRecord(ring, readEpoch, maxLen, record).0;
            RingAgrees(next, history) && next.readSeq == ring.readSeq
  {
    var pieces: seq<seq<byte>> :| PiecesOf(history, pieces) && record == Flatten(pieces);
    AcceptAllKeeps(ring, history, readEpoch, maxLen, pieces);
    RecordOfPieces(ring, history, readEpoch, maxLen, pieces);
  }

  lemma RecordOfPieces(ring: Ring, history: seq<seq<byte>>, readEpoch: nat, maxLen: nat, pieces: seq<seq<byte>>)
    requires AllNumbered(history) && ring.Valid() && PiecesOf(history, pieces)
    ensures AcceptRecord(ring, readEpoch, maxLen, Flatten(pieces)) == AcceptAll(ring, readEpoch, maxLen, pieces)
  {
    forall i | 0 <= i < |pieces|
      ensures IsFragment(pieces[i])
    {
      PieceIsFragment(history, pieces[i]);
    }
    OnlyFragments(ring, readEpoch, maxLen, pieces);
  }

  // ----- whole runs -----

  /** What the sender has been given, what is or has been on the wire, the receiver, and what the
      receiver has handed up. `dead` once the receiver has failed. */
  datatype System = System(history: seq<seq<byte>>, wire: set<seq<byte>>, ring: Ring, delivered: seq<seq<byte>>,
      dead: bool)

  datatype Event =
    | Add(msgType: byte, body: seq<byte>)
    | Send(pieces: seq<seq<byte>>)
    | Deliver(record: seq<byte>, readEpoch: nat, maxLen: nat)
    | Release

  ghost predicate Init(s: System) {
    s == System([], {}, Ring(0, seq(MAX_FLIGHT, i => None)), [], false)
  }

  /** One step. Anything the sender may ever put into a record (`Genuine`) can be sent at any time and
      any number of times, also several pieces in one record; anything sent can arrive at any time, any
      number of times, or never; the epoch and the size limit the receiver applies are arbitrary. */
  ghost predicate Next(s: System, e: Event, t: System)
    requires s.ring.Valid()
  {
    match e
    case Add(msgType, body) =>
      && |body| < 0x100_0000 && |s.history| + 1 < 0x1_0000
      && t == s.(history := s.history + [BuildMessage(msgType, |s.history|, body)])
    case Send(pieces) =>
      && PiecesOf(s.history, pieces)
      && t == s.(wire := s.wire + {Flatten(pieces)})
    case Deliver(record, readEpoch, maxLen) =>
      && record in s.wire && !s.dead
      && var (ring, outcome) := AcceptRecord(s.ring, readEpoch, maxLen, record);
         t == s.(ring := ring, dead := outcome.Failed?)
    case Release =>
      && s.ring.Message().Some? && !s.dead
      && t == s.(ring := s.ring.Advance(), delivered := s.delivered + [s.ring.Message().value])
  }

  ghost predicate IsRun(states: seq<System>, events: seq<Event>) {
    && |states| == |events| + 1 && Init(states[0])
    && forall i :: 0 <= i < |events| ==> states[i].ring.Valid() && Next(states[i], events[i], states[i + 1])
  }

  ghost predicate Inv(s: System) {
    && AllNumbered(s.history)
    && (forall r :: r in s.wire ==> GenuineRecord(s.history, r))
    && RingAgrees(s.ring, s.history)
    && s.ring.readSeq == |s.delivered| <= |s.history|
    && s.delivered == s.history[..|s.delivered|]
  }

  lemma AddKeeps(s: System, msgType: byte, body: seq<byte>)
    requires Inv(s) && |body| < 0x100_0000 && |s.history| + 1 < 0x1_0000
    ensures Inv(s.(history := s.history + [BuildMessage(msgType, |s.history|, body)]))
  {
    var raw := BuildMessage(msgType, |s.history|, body);
    BuiltIsMessage(msgType, |s.history|, body);
    var history := s.history + [raw];
    forall r | r in s.wire
      ensures GenuineRecord(history, r)
    {
      RecordLater(s.history, raw, r);
    }
    assert forall k :: 0 <= k < |s.history| ==> history[k] == s.history[k];
  }

  /** A complete message is the message that was sent, header and all. */
  lemma CompleteIsWhole(p: Partial, raw: seq<byte>)
    requires Agrees(p, raw) && p.Complete()
    ensures p.data == raw
  {
    var header := Header(p.msgType, p.msgLen, p.seqNum, 0, p.msgLen).Encode();
    var tail := p.data[HEADER_LENGTH..];
    assert p.data == header + tail;
    forall i | 0 <= i < p.msgLen
      ensures tail[i] == MessageBody(raw)[i]
    {
      assert p.received[i];
      assert p.data[HEADER_LENGTH + i] == raw[HEADER_LENGTH + i];
    }
  }

  lemma ReleaseKeeps(s: System)
    requires Inv(s) && s.ring.Message().Some?
    ensures |s.delivered| < |s.history| && s.ring.Message().value == s.history[|s.delivered|]
    ensures Inv(s.(ring := s.ring.Advance(), delivered := s.delivered + [s.ring.Message().value]))
  {
    var p := s.ring.Current().value;
    var raw := s.history[p.seqNum];
    assert Agrees(p, raw);
    CompleteIsWhole(p, raw);
    AdvanceAgrees(s.ring, s.history);
  }

  lemma AdvanceAgrees(ring: Ring, history: seq<seq<byte>>)
    requires RingAgrees(ring, history) && ring.Message().Some?
    ensures RingAgrees(ring.Advance(), history)
  {
    AdvanceValid(ring);
  }

  lemma StepKeeps(s: System, e: Event, t: System)
    requires Inv(s) && Next(s, e, t)
    ensures Inv(t)
  {
    match e
    case Add(msgType, body) => AddKeeps(s, msgType, body);
    case Send(pieces) => assert GenuineRecord(s.history, Flatten(pieces));
    case Deliver(record, readEpoch, maxLen) =>
      AcceptRecordKeeps(s.ring, s.history, readEpoch, maxLen, record);
    case Release => ReleaseKeeps(s);
  }

  lemma {:induction false} InvHolds(states: seq<System>, events: seq<Event>, n: nat)
    requires IsRun(states, events) && n < |states|
    ensures Inv(states[n])
  {
    if n > 0 {
      InvHolds(states, events, n - 1);
      StepKeeps(states[n - 1], events[n - 1], states[n]);
    }
  }

  /** In every run, what the receiver has handed up is a prefix, message by message and byte by byte,
      headers included, of what the sender was given. */
  lemma DeliveredIsPrefix(states: seq<System>, events: seq<Event>, n: nat)
    requires IsRun(states, events) && n < |states|
    ensures states[n].delivered <= states[n].history
  {
    InvHolds(states, events, n);
  }

  // ----- what has to arrive for a message to be complete -----

  ghost predicate IsPiece(record: seq<byte>, raw: seq<byte>, off: nat, len: nat) {
    IsMessage(raw) && off + len <= |MessageBody(raw)| && record == Piece(raw, off, len)
  }

  /** The record is a piece of message `raw` at all. */
  ghost predicate Mentions(record: seq<byte>, raw: seq<byte>) {
    exists off: nat, len: nat :: IsPiece(record, raw, off, len)
  }

  /** The record carries byte `b` of message `raw`. */
  ghost predicate Carries(record: seq<byte>, raw: seq<byte>, b: nat) {
    exists off: nat, len: nat :: IsPiece(record, raw, off, len) && off <= b < off + len
  }

  predicate Present(ring: Ring, k: nat)
    requires ring.Valid()
  {
    ring.slots[k % MAX_FLIGHT].Some? && ring.slots[k % MAX_FLIGHT].value.seqNum == k
  }

  ghost predicate MentionedBy(records: seq<seq<byte>>, raw: seq<byte>) {
    exists i :: 0 <= i < |records| && Mentions(records[i], raw)
  }

  ghost predicate CarriedBy(records: seq<seq<byte>>, raw: seq<byte>, b: nat) {
    exists i :: 0 <= i < |records| && Carries(records[i], raw, b)
  }

  lemma PresentSize(ring: Ring, history: seq<seq<byte>>, k: nat)
    requires AllNumbered(history) && RingAgrees(ring, history) && k < |history| && Present(ring, k)
    ensures |ring.slots[k % MAX_FLIGHT].value.received| == |MessageBody(history[k])|
  {
    assert Agrees(ring.slots[k % MAX_FLIGHT].value, history[k]);
  }

  /** Marking bytes of message `j` forgets nothing that has arrived of message `k`, and marks what it is
      said to mark. */
  lemma MarksKeep(ring: Ring, next: Ring, history: seq<seq<byte>>, j: nat, off: nat, len: nat, k: nat, b: nat)
    requires AllNumbered(history) && RingAgrees(ring, history) && RingAgrees(next, history)
    requires MarksOnly(ring, next, j, off, len)
    requires InWindow(ring, k) && k < |history| && j < |history|
    ensures Present(ring, k) || j == k ==> Present(next, k)
    ensures Arrived(ring, k, b) ==> Arrived(next, k, b)
    ensures j == k && off <= b < off + len && b < |MessageBody(history[k])| ==> Arrived(next, k, b)
  {
    if j == k {
      OwnMarksKeep(ring, next, history, off, len, k, b);
    } else {
      OtherMarksKeep(ring, next, j, off, len, k, b);
    }
  }

  lemma OtherMarksKeep(ring: Ring, next: Ring, j: nat, off: nat, len: nat, k: nat, b: nat)
    requires ring.Valid() && next.Valid() && MarksOnly(ring, next, j, off, len) && InWindow(ring, k) && j != k
    ensures Present(next, k) == Present(ring, k) && Arrived(next, k, b) == Arrived(ring, k, b)
  {
    if InWindow(ring, j) {
      assert j % MAX_FLIGHT != k % MAX_FLIGHT;
    }
  }

  lemma OwnMarksKeep(ring: Ring, next: Ring, history: seq<seq<byte>>, off: nat, len: nat, k: nat, b: nat)
    requires AllNumbered(history) && RingAgrees(ring, history) && RingAgrees(next, history)
    requires MarksOnly(ring, next, k, off, len) && InWindow(ring, k) && k < |history|
    ensures Present(next, k) && (Arrived(ring, k, b) ==> Arrived(next, k, b))
    ensures off <= b < off + len && b < |MessageBody(history[k])| ==> Arrived(next, k, b)
  {
    PresentSize(next, history, k);
    if Arrived(ring, k, b) {
      PresentSize(ring, history, k);
    }
  }

  /** The step from `ring` to `next` is explained by `record`: whichever piece of a message the record is,
      that piece has been marked. */
  ghost predicate Explains(ring: Ring, next: Ring, history: seq<seq<byte>>, record: seq<byte>)
    requires ring.Valid()
  {
    && RingAgrees(next, history) && next.readSeq == ring.readSeq
    && forall k: nat, off: nat, len: nat :: k < |history| && IsPiece(record, history[k], off, len) ==>
         MarksOnly(ring, next, k, off, len)
  }

  lemma AcceptExplains(ring: Ring, history: seq<seq<byte>>, readEpoch: nat, maxLen: nat, record: seq<byte>, next: Ring)
    requires AllNumbered(history) && RingAgrees(ring, history) && Genuine(history, record)
    requires AcceptRecord(ring, readEpoch, maxLen, record) == (next, Accepted)
    ensures Explains(ring, next, history, record)
  {
    var j, off: nat, len: nat :|
      0 <= j < |history| && IsMessage(history[j]) && off + len <= |MessageBody(history[j])|
        && record == Piece(history[j], off, len);
    AcceptGenuine(ring, history, readEpoch, maxLen, j, off, len);
    forall k: nat, off': nat, len': nat | k < |history| && IsPiece(record, history[k], off', len')
      ensures MarksOnly(ring, next, k, off', len')
    {
      AcceptGenuine(ring, history, readEpoch, maxLen, k, off', len');
    }
  }

  /** A genuine record forgets nothing that has arrived before. */
  lemma RecordKeeps(ring: Ring, history: seq<seq<byte>>, record: seq<byte>, next: Ring, k: nat, b: nat)
    requires AllNumbered(history) && RingAgrees(ring, history) && Genuine(history, record)
    requires InWindow(ring, k) && k < |history|
    requires Explains(ring, next, history, record)
    ensures Present(ring, k) ==> Present(next, k)
    ensures Arrived(ring, k, b) ==> Arrived(next, k, b)
  {
    var j, off: nat, len: nat :|
      0 <= j < |history| && IsMessage(history[j]) && off + len <= |MessageBody(history[j])|
        && record == Piece(history[j], off, len);
    assert IsPiece(record, history[j], off, len);
    MarksKeep(ring, next, history, j, off, len, k, b);
  }

  /** What a genuine record carries arrives. */
  lemma RecordAdds(ring: Ring, history: seq<seq<byte>>, record: seq<byte>, next: Ring, k: nat, b: nat)
    requires AllNumbered(history) && RingAgrees(ring, history)
    requires InWindow(ring, k) && k < |history| && Carries(record, history[k], b)
    requires Explains(ring, next, history, record)
    ensures Arrived(next, k, b)
  {
    var off: nat, len: nat :| IsPiece(record, history[k], off, len) && off <= b < off + len;
    MarksKeep(ring, next, history, k, off, len, k, b);
  }

  lemma RecordOpens(ring: Ring, history: seq<seq<byte>>, record: seq<byte>, next: Ring, k: nat)
    requires AllNumbered(history) && RingAgrees(ring, history)
    requires InWindow(ring, k) && k < |history| && Mentions(record, history[k])
    requires Explains(ring, next, history, record)
    ensures Present(next, k)
  {
    var off: nat, len: nat :| IsPiece(record, history[k], off, len);
    MarksKeep(ring, next, history, k, off, len, k, 0);
  }

  lemma RecordArrives(ring: Ring, history: seq<seq<byte>>, record: seq<byte>, next: Ring, k: nat, b: nat)
    requires AllNumbered(history) && RingAgrees(ring, history) && Genuine(history, record)
    requires InWindow(ring, k) && k < |history|
    requires Explains(ring, next, history, record)
    ensures Present(ring, k) || Mentions(record, history[k]) ==> Present(next, k)
    ensures Arrived(ring, k, b) || Carries(record, history[k], b) ==> Arrived(next, k, b)
  {
    RecordKeeps(ring, history, record, next, k, b);
    if Mentions(record, history[k]) {
      RecordOpens(ring, history, record, next, k);
    }
    if Carries(record, history[k], b) {
      RecordAdds(ring, history, record, next, k, b);
    }
  }

  lemma FirstOrLater(records: seq<seq<byte>>, message: seq<byte>, b: nat)
    requires records != []
    ensures MentionedBy(records, message) ==> Mentions(records[0], message) || MentionedBy(records[1..], message)
    ensures CarriedBy(records, message, b) ==> Carries(records[0], message, b) || CarriedBy(records[1..], message, b)
  {
    if MentionedBy(records, message) {
      var i :| 0 <= i < |records| && Mentions(records[i], message);
      assert i > 0 ==> records[i] == records[1..][i - 1];
    }
    if CarriedBy(records, message, b) {
      var i :| 0 <= i < |records| && Carries(records[i], message, b);
      assert i > 0 ==> records[i] == records[1..][i - 1];
    }
  }

  lemma {:induction false} BatchArrives(ring: Ring, history: seq<seq<byte>>, readEpoch: nat, maxLen: nat,
      records: seq<seq<byte>>, k: nat, b: nat)
    requires AllNumbered(history) && RingAgrees(ring, history)
    requires PiecesOf(history, records)
    requires InWindow(ring, k) && k < |history|
    requires AcceptAll(ring, readEpoch, maxLen, records).1.Accepted?
    ensures var last := AcceptAll(ring, readEpoch, maxLen, records).0;
            && RingAgrees(last, history)
            && (Present(ring, k) || MentionedBy(records, history[k]) ==> Present(last, k))
            && (Arrived(ring, k, b) || CarriedBy(records, history[k], b) ==> Arrived(last, k, b))
    decreases |records|
  {
    if records != [] {
      var next := AcceptRecord(ring, readEpoch, maxLen, records[0]).0;
      AcceptExplains(ring, history, readEpoch, maxLen, records[0], next);
      RecordArrives(ring, history, records[0], next, k, b);
      BatchArrives(next, history, readEpoch, maxLen, records[1..], k, b);
      FirstOrLater(records, history[k], b);
    }
  }

  /** By its header, the receiver refuses the record. */
  predicate RefusedRecord(ring: Ring, readEpoch: nat, maxLen: nat, record: seq<byte>) {
    var f := ParseFragment(record);
    f.Some? && Refused(ring, readEpoch, maxLen, f.value.header.seqNum, f.value.header.msgLen)
  }

  predicate NoneRefused(ring: Ring, readEpoch: nat, maxLen: nat, records: seq<seq<byte>>) {
    forall i :: 0 <= i < |records| ==> !RefusedRecord(ring, readEpoch, maxLen, records[i])
  }

  lemma RefusedByHeader(ring: Ring, history: seq<seq<byte>>, readEpoch: nat, maxLen: nat, record: seq<byte>)
    requires AllNumbered(history) && RingAgrees(ring, history) && Genuine(history, record)
    ensures var (next, outcome) := AcceptRecord(ring, readEpoch, maxLen, record);
            && RingAgrees(next, history) && next.readSeq == ring.readSeq
            && (outcome.Failed? <==> RefusedRecord(ring, readEpoch, maxLen, record))
  {
    var j, off: nat, len: nat :|
      0 <= j < |history| && IsMessage(history[j]) && off + len <= |MessageBody(history[j])|
        && record == Piece(history[j], off, len);
    AcceptGenuine(ring, history, readEpoch, maxLen, j, off, len);
    PieceParses(history[j], j, off, len);
  }

  /** Pieces that arrive in records of their own are all accepted if and only if none is to be refused. */
  lemma {:induction false} PiecesAccepted(ring: Ring, history: seq<seq<byte>>, readEpoch: nat, maxLen: nat,
      records: seq<seq<byte>>)
    requires AllNumbered(history) && RingAgrees(ring, history)
    requires PiecesOf(history, records)
    ensures AcceptAll(ring, readEpoch, maxLen, records).1.Accepted? <==> NoneRefused(ring, readEpoch, maxLen, records)
    decreases |records|
  {
    if records != [] {
      RefusedByHeader(ring, history, readEpoch, maxLen, records[0]);
      var next := AcceptRecord(ring, readEpoch, maxLen, records[0]).0;
      PiecesAccepted(next, history, readEpoch, maxLen, records[1..]);
      NoneRefusedFrom(ring, next, readEpoch, maxLen, records);
    }
  }

  lemma NoneRefusedFrom(ring: Ring, next: Ring, readEpoch: nat, maxLen: nat, records: seq<seq<byte>>)
    requires next.readSeq == ring.readSeq && records != []
    ensures NoneRefused(ring, readEpoch, maxLen, records) <==>
            !RefusedRecord(ring, readEpoch, maxLen, records[0]) && NoneRefused(next, readEpoch, maxLen, records[1..])
  {
    forall i | 0 < i < |records|
      ensures RefusedRecord(ring, readEpoch, maxLen, records[i]) <==>
                RefusedRecord(next, readEpoch, maxLen, records[1..][i - 1])
    {
    }
    assert forall i :: 0 <= i < |records[1..]| ==> records[1..][i] == records[i + 1];
  }

  /** The same for a message of the window, when they carry all its bytes. */
  lemma PiecesComplete(ring: Ring, history: seq<seq<byte>>, readEpoch: nat, maxLen: nat, records: seq<seq<byte>>,
      k: nat)
    requires AllNumbered(history) && RingAgrees(ring, history)
    requires PiecesOf(history, records)
    requires InWindow(ring, k) && k < |history|
    requires NoneRefused(ring, readEpoch, maxLen, records)
    requires MentionedBy(records, history[k])
    requires forall b :: 0 <= b < |MessageBody(history[k])| ==> CarriedBy(records, history[k], b)
    ensures AcceptAll(ring, readEpoch, maxLen, records).1.Accepted?
    ensures var last := AcceptAll(ring, readEpoch, maxLen, records).0;
            && Present(last, k) && last.slots[k % MAX_FLIGHT].value.data == history[k]
            && last.slots[k % MAX_FLIGHT].value.Complete()
            && (k == ring.readSeq ==> last.Message() == Some(history[k]))
  {
    PiecesAccepted(ring, history, readEpoch, maxLen, records);
    BatchArrives(ring, history, readEpoch, maxLen, records, k, 0);
    var last := AcceptAll(ring, readEpoch, maxLen, records).0;
    PresentSize(last, history, k);
    var p := last.slots[k % MAX_FLIGHT].value;
    forall b | 0 <= b < |p.received|
      ensures p.received[b]
    {
      BatchArrives(ring, history, readEpoch, maxLen, records, k, b);
      assert Arrived(last, k, b);
    }
    CompleteIsWhole(p, history[k]);
  }

  lemma FragmentsOf(history: seq<seq<byte>>, groups: seq<seq<seq<byte>>>)
    requires AllNumbered(history) && PiecesOf(history, Flatten(groups))
    ensures AreFragments(groups)
  {
    forall i, j | 0 <= i < |groups| && 0 <= j < |groups[i]|
      ensures IsFragment(groups[i][j])
    {
      InFlatten(groups, i, j);
      PieceIsFragment(history, groups[i][j]);
    }
  }

  lemma {:induction false} InFlatten<T>(groups: seq<seq<T>>, i: nat, j: nat)
    requires i < |groups| && j < |groups[i]|
    ensures exists k :: 0 <= k < |Flatten(groups)| && Flatten(groups)[k] == groups[i][j]
    decreases i
  {
    if i == 0 {
      assert Flatten(groups)[j] == groups[0][j];
    } else {
      InFlatten(groups[1..], i - 1, j);
      var k :| 0 <= k < |Flatten(groups[1..])| && Flatten(groups[1..])[k] == groups[1..][i - 1][j];
      assert Flatten(groups)[|groups[0]| + k] == groups[i][j];
    }
  }

  /** A batch of the sender's records, of any number of pieces each, is accepted if and only if none of the
      pieces is to be refused. */
  lemma BatchAccepted(ring: Ring, history: seq<seq<byte>>, readEpoch: nat, maxLen: nat, groups: seq<seq<seq<byte>>>)
    requires AllNumbered(history) && RingAgrees(ring, history) && PiecesOf(history, Flatten(groups))
    ensures AcceptAll(ring, readEpoch, maxLen, Records(groups)).1.Accepted? <==>
            NoneRefused(ring, readEpoch, maxLen, Flatten(groups))
  {
    FragmentsOf(history, groups);
    GroupingDoesNotMatter(ring, readEpoch, maxLen, groups);
    PiecesAccepted(ring, history, readEpoch, maxLen, Flatten(groups));
  }

  /** A message of the window is complete once records that together carry all its bytes have arrived, in
      whatever order, however overlapping, with however many pieces in a record, and among whatever other
      pieces of the sender's messages that are not to be refused. */
  lemma CoverageCompletes(ring: Ring, history: seq<seq<byte>>, readEpoch: nat, maxLen: nat,
      groups: seq<seq<seq<byte>>>, k: nat)
    requires AllNumbered(history) && RingAgrees(ring, history) && PiecesOf(history, Flatten(groups))
    requires InWindow(ring, k) && k < |history|
    requires NoneRefused(ring, readEpoch, maxLen, Flatten(groups))
    requires MentionedBy(Flatten(groups), history[k])
    requires forall b :: 0 <= b < |MessageBody(history[k])| ==> CarriedBy(Flatten(groups), history[k], b)
    ensures AcceptAll(ring, readEpoch, maxLen, Records(groups)).1.Accepted?
    ensures var last := AcceptAll(ring, readEpoch, maxLen, Records(groups)).0;
            && Present(last, k) && last.slots[k % MAX_FLIGHT].value.data == history[k]
            && last.slots[k % MAX_FLIGHT].value.Complete()
            && (k == ring.readSeq ==> last.Message() == Some(history[k]))
  {
    FragmentsOf(history, groups);
    GroupingDoesNotMatter(ring, readEpoch, maxLen, groups);
    PiecesComplete(ring, history, readEpoch, maxLen, Flatten(groups), k);
  }

  function Plaintexts(records: seq<SealedRecord>): seq<seq<byte>> {
    seq(|records|, i requires 0 <= i < |records| => records[i].plaintext)
  }

  /** A tiling of a message, as one pass of the sender makes it, is such a set of records. */
  lemma {:induction false} TilingCovers(m: Outgoing, off: nat, tiles: seq<SealedRecord>, b: nat)
    requires TilesFrom(m, off, tiles) && !m.isCcs
    ensures MentionedBy(Plaintexts(tiles), m.data)
    ensures off <= b < |MessageBody(m.data)| ==> CarriedBy(Plaintexts(tiles), m.data, b)
    decreases |tiles|
  {
    var len := |tiles[0].plaintext| - HEADER_LENGTH;
    var all := Plaintexts(tiles);
    assert IsPiece(all[0], m.data, off, len);
    assert Mentions(all[0], m.data);
    if off <= b < off + len {
      assert Carries(all[0], m.data, b);
    } else if off + len <= b < |MessageBody(m.data)| {
      TilingCovers(m, off + len, tiles[1..], b);
      var later := Plaintexts(tiles[1..]);
      var i :| 0 <= i < |later| && Carries(later[i], m.data, b);
      assert all[i + 1] == later[i];
    }
  }

  /** Sender and receiver together: once all the pieces of one pass over a message have arrived, in any
      order, in any records and among any others, the receiver has that message, byte for byte. */
  lemma PassCompletes(ring: Ring, history: seq<seq<byte>>, readEpoch: nat, maxLen: nat, groups: seq<seq<seq<byte>>>,
                      k: nat, m: Outgoing, tiles: seq<SealedRecord>)
    requires AllNumbered(history) && RingAgrees(ring, history) && PiecesOf(history, Flatten(groups))
    requires InWindow(ring, k) && k < |history| && NoneRefused(ring, readEpoch, maxLen, Flatten(groups))
    requires !m.isCcs && m.data == history[k] && TilesFrom(m, 0, tiles)
    requires forall i :: 0 <= i < |tiles| ==> tiles[i].plaintext in Flatten(groups)
    ensures AcceptAll(ring, readEpoch, maxLen, Records(groups)).1.Accepted?
    ensures var last := AcceptAll(ring, readEpoch, maxLen, Records(groups)).0;
            && Present(last, k) && last.slots[k % MAX_FLIGHT].value.data == history[k]
            && last.slots[k % MAX_FLIGHT].value.Complete()
            && (k == ring.readSeq ==> last.Message() == Some(history[k]))
  {
    forall b | 0 <= b < |MessageBody(history[k])|
      ensures CarriedBy(Flatten(groups), history[k], b)
    {
      PassCovers(m, tiles, Flatten(groups), b);
    }
    PassCovers(m, tiles, Flatten(groups), 0);
    CoverageCompletes(ring, history, readEpoch, maxLen, groups, k);
  }

  lemma PassCovers(m: Outgoing, tiles: seq<SealedRecord>, records: seq<seq<byte>>, b: nat)
    requires !m.isCcs && TilesFrom(m, 0, tiles)
    requires forall i :: 0 <= i < |tiles| ==> tiles[i].plaintext in records
    ensures MentionedBy(records, m.data)
    ensures b < |MessageBody(m.data)| ==> CarriedBy(records, m.data, b)
  {
    var sent := Plaintexts(tiles);
    TilingCovers(m, 0, tiles, b);
    var i :| 0 <= i < |sent| && Mentions(sent[i], m.data);
    var i' :| 0 <= i' < |records| && records[i'] == sent[i];
    if b < |MessageBody(m.data)| {
      var j :| 0 <= j < |sent| && Carries(sent[j], m.data, b);
      var j' :| 0 <= j' < |records| && records[j'] == sent[j];
    }
  }
}
