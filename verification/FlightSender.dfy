/** Sending DTLS handshake flights: cutting messages into fragments that fit the MTU, filling packets,
    resuming and retransmitting (sections 4.2.3 and 4.2.4 of RFC 6347). */
module FlightSender {
  import opened Bytes
  import opened Wrappers
  import opened Reassembly
  import opened RecordWriter

  const MIN_MTU := 256 - 28
  const DTLS1_VERSION := 0xfeff
  const DEFAULT_MTU := 1500 - 28

  // ----- messages and their pieces -----

  /** A message as it is handed to the flight: one fragment that is the whole message. */
  predicate IsMessage(raw: seq<byte>) {
    && ParseFragment(raw).Some?
    && var f := ParseFragment(raw).value;
       f.header.fragOff == 0 && f.header.fragLen == f.header.msgLen && f.rest == []
  }

  function MessageBody(raw: seq<byte>): seq<byte>
    requires IsMessage(raw)
  {
    ParseFragment(raw).value.body
  }

  /** The fragment that carries bytes `off` to `off + len` of a message's body. */
  function Piece(raw: seq<byte>, off: nat, len: nat): seq<byte>
    requires IsMessage(raw) && off + len <= |MessageBody(raw)|
  {
    var f := ParseFragment(raw).value;
    f.header.(fragOff := off, fragLen := len).Encode() + f.body[off..off + len]
  }

  /** `dtls1_init_message`, the body, and `dtls1_finish_message`, which copies the fragment length over
      the message length left open at first. */
  function BuildMessage(msgType: byte, seqNum: nat, body: seq<byte>): seq<byte>
    requires seqNum < 0x1_0000 && |body| < 0x100_0000
  {
    var unfinished := [msgType] + U24(0) + U16(seqNum) + U24(0) + U24(|body|) + body;
    Overwrite(unfinished, 1, unfinished[HEADER_LENGTH - 3..HEADER_LENGTH])
  }

  /** The finished message is one whole fragment with the header the receiver rebuilds. */
  lemma BuiltIsMessage(msgType: byte, seqNum: nat, body: seq<byte>)
    requires seqNum < 0x1_0000 && |body| < 0x100_0000
    ensures var h := Header(msgType, |body|, seqNum, 0, |body|);
            && BuildMessage(msgType, seqNum, body) == h.Encode() + body
            && ParseFragment(BuildMessage(msgType, seqNum, body)) == Some(Fragment(h, body, []))
            && IsMessage(BuildMessage(msgType, seqNum, body))
  {
    var h := Header(msgType, |body|, seqNum, 0, |body|);
    assert BuildMessage(msgType, seqNum, body) == h.Encode() + body;
    assert h.Encode() + body == h.Encode() + body + [];
    ParseEncoded(h, body, []);
  }

  // ----- one pass over a flight -----

  /** `DTLS_OUTGOING_MESSAGE`. */
  datatype Outgoing = Outgoing(data: seq<byte>, epoch: nat, isCcs: bool)

  /** `outgoing_written` and `outgoing_offset`. */
  datatype Position = Position(msg: nat, off: nat)

  /** Where in the flight the writer stands after `r`, if `r` is what can be written at `pos`, under the epoch
      of the message there. */
  function Step(flight: seq<Outgoing>, pos: Position, r: SealedRecord): Option<Position> {
    if pos.msg >= |flight| || r.nonce.epoch != flight[pos.msg].epoch then None
    else
      var m := flight[pos.msg];
      if m.isCcs then
        if r.recordType == RT_CHANGE_CIPHER_SPEC && r.plaintext == [1] then Some(Position(pos.msg + 1, 0)) else None
      else if !IsMessage(m.data) || r.recordType != RT_HANDSHAKE || |r.plaintext| < HEADER_LENGTH then None
      else
        var len := |r.plaintext| - HEADER_LENGTH;
        var left := |MessageBody(m.data)| - pos.off;
        if left < len || r.plaintext != Piece(m.data, pos.off, len) then None
        else if len == left then Some(Position(pos.msg + 1, 0))
        else if len > 0 then Some(Position(pos.msg, pos.off + len))
        else None
  }

  function Walk(flight: seq<Outgoing>, pos: Position, records: seq<SealedRecord>): Option<Position>
    decreases |records|
  {
    if records == [] then Some(pos)
    else
      match Step(flight, pos, records[0])
      case None => None
      case Some(next) => Walk(flight, next, records[1..])
  }

  lemma {:induction false} WalkAppend(flight: seq<Outgoing>, pos: Position, a: seq<SealedRecord>, b: seq<SealedRecord>)
    requires Walk(flight, pos, a).Some?
    ensures Walk(flight, pos, a + b) == Walk(flight, Walk(flight, pos, a).value, b)
    decreases |a|
  {
    if a == [] {
      assert a + b == b;
    } else {
      assert (a + b)[1..] == a[1..] + b;
      WalkAppend(flight, Step(flight, pos, a[0]).value, a[1..], b);
    }
  }

  /** Every record takes the writer forward, so a flight cannot be written for ever. */
  lemma {:induction false} WalkProgress(flight: seq<Outgoing>, pos: Position, records: seq<SealedRecord>)
    requires records != [] && Walk(flight, pos, records).Some?
    ensures var end := Walk(flight, pos, records).value;
            pos.msg < end.msg || (pos.msg == end.msg && pos.off < end.off)
    decreases |records|
  {
    if |records| > 1 {
      WalkProgress(flight, Step(flight, pos, records[0]).value, records[1..]);
    }
  }

  lemma WalkOne(flight: seq<Outgoing>, pos: Position, r: SealedRecord)
    ensures Walk(flight, pos, [r]) == Step(flight, pos, r)
  {
    var rs := [r];
    assert rs[1..] == [];
  }

  /** The bodies carried by a run of fragments, put together. */
  function Bodies(records: seq<SealedRecord>): seq<byte> {
    if records == [] then []
    else
      var p := records[0].plaintext;
      (if |p| < HEADER_LENGTH then [] else p[HEADER_LENGTH..]) + Bodies(records[1..])
  }

  /** The records tile the message from byte `off` on, under the epoch in which it was added: each is the
      fragment that starts where the one before ended, none but the last of them is empty or reaches the end
      of the body. */
  ghost predicate TilesFrom(m: Outgoing, off: nat, records: seq<SealedRecord>)
    decreases |records|
  {
    && records != [] && records[0].nonce.epoch == m.epoch
    && if m.isCcs then |records| == 1 && records[0].recordType == RT_CHANGE_CIPHER_SPEC && records[0].plaintext == [1]
       else
         && IsMessage(m.data) && |records[0].plaintext| >= HEADER_LENGTH && records[0].recordType == RT_HANDSHAKE
         && var len, left := |records[0].plaintext| - HEADER_LENGTH, |MessageBody(m.data)| - off;
            && len <= left && records[0].plaintext == Piece(m.data, off, len)
            && if |records| == 1 then len == left else 0 < len < left && TilesFrom(m, off + len, records[1..])
  }

  /** Every tile of a message is under the epoch in which the message was added. */
  lemma {:induction false} TilesUnderEpoch(m: Outgoing, off: nat, records: seq<SealedRecord>, i: nat)
    requires TilesFrom(m, off, records) && i < |records|
    ensures records[i].nonce.epoch == m.epoch
    decreases i
  {
    if i > 0 {
      TilesUnderEpoch(m, off + |records[0].plaintext| - HEADER_LENGTH, records[1..], i - 1);
    }
  }

  lemma PieceBody(raw: seq<byte>, off: nat, len: nat)
    requires IsMessage(raw) && off + len <= |MessageBody(raw)|
    ensures Piece(raw, off, len)[HEADER_LENGTH..] == MessageBody(raw)[off..off + len]
  {
  }

  /** Tiles put together are the body, so no byte is missing and none is sent twice. */
  lemma {:induction false} TilesCover(m: Outgoing, off: nat, records: seq<SealedRecord>)
    requires TilesFrom(m, off, records) && !m.isCcs
    ensures off <= |MessageBody(m.data)| && Bodies(records) == MessageBody(m.data)[off..]
    decreases |records|
  {
    var body, p := MessageBody(m.data), records[0].plaintext;
    var len := |p| - HEADER_LENGTH;
    PieceBody(m.data, off, len);
    if |records| == 1 {
      assert records[1..] == [];
    } else {
      TilesCover(m, off + len, records[1..]);
      assert body[off..] == body[off..off + len] + body[off + len..];
    }
  }

  /** The walk cut at the message boundaries: group `k` is what was sent of message `first + k`. */
  ghost predicate Grouped(flight: seq<Outgoing>, first: nat, off: nat, groups: seq<seq<SealedRecord>>,
      records: seq<SealedRecord>) {
    && first + |groups| == |flight|
    && (forall k :: 0 <= k < |groups| ==> TilesFrom(flight[first + k], if k == 0 then off else 0, groups[k]))
    && Flatten(groups) == records
  }

  /** A walk to the end of the flight tiles what is left of it, message by message. */
  lemma {:induction false} WalkTiles(flight: seq<Outgoing>, pos: Position, records: seq<SealedRecord>)
    returns (groups: seq<seq<SealedRecord>>)
    requires pos.msg <= |flight|
    requires Walk(flight, pos, records) == Some(Position(|flight|, 0))
    ensures Grouped(flight, pos.msg, pos.off, groups, records)
    decreases |records|
  {
    if records == [] {
      groups := [];
    } else {
      var r := records[0];
      var next := Step(flight, pos, r).value;
      var later := WalkTiles(flight, next, records[1..]);
      assert records == [r] + records[1..];
      if next.msg == pos.msg + 1 {
        groups := NewGroup(flight, pos, r, later, records[1..]);
      } else {
        groups := LongerGroup(flight, pos, r, later, records[1..]);
      }
    }
  }

  lemma NewGroup(flight: seq<Outgoing>, pos: Position, r: SealedRecord, later: seq<seq<SealedRecord>>,
      rest: seq<SealedRecord>)
    returns (groups: seq<seq<SealedRecord>>)
    requires Step(flight, pos, r) == Some(Position(pos.msg + 1, 0))
    requires Grouped(flight, pos.msg + 1, 0, later, rest)
    ensures Grouped(flight, pos.msg, pos.off, groups, [r] + rest)
  {
    groups := [[r]] + later;
    assert groups[1..] == later;
    forall k | 0 <= k < |groups|
      ensures TilesFrom(flight[pos.msg + k], if k == 0 then pos.off else 0, groups[k])
    {
      if k > 0 {
        assert TilesFrom(flight[pos.msg + 1 + (k - 1)], 0, later[k - 1]);
      }
    }
  }

  lemma LongerGroup(flight: seq<Outgoing>, pos: Position, r: SealedRecord, later: seq<seq<SealedRecord>>,
      rest: seq<SealedRecord>)
    returns (groups: seq<seq<SealedRecord>>)
    requires Step(flight, pos, r).Some? && Step(flight, pos, r).value.msg == pos.msg
    requires Grouped(flight, pos.msg, Step(flight, pos, r).value.off, later, rest)
    ensures Grouped(flight, pos.msg, pos.off, groups, [r] + rest)
  {
    var next := Step(flight, pos, r).value;
    assert TilesFrom(flight[pos.msg + 0], next.off, later[0]);
    var longer := [r] + later[0];
    FirstTile(flight, pos, r, later[0]);
    groups := [longer] + later[1..];
    assert groups[1..] == later[1..];
    assert Flatten(groups) == [r] + Flatten(later);
    forall k | 0 <= k < |groups|
      ensures TilesFrom(flight[pos.msg + k], if k == 0 then pos.off else 0, groups[k])
    {
      if k > 0 {
        assert TilesFrom(flight[pos.msg + k], 0, later[k]);
      }
    }
  }

  lemma FirstTile(flight: seq<Outgoing>, pos: Position, r: SealedRecord, tiles: seq<SealedRecord>)
    requires Step(flight, pos, r).Some? && Step(flight, pos, r).value.msg == pos.msg
    requires TilesFrom(flight[pos.msg], Step(flight, pos, r).value.off, tiles)
    ensures TilesFrom(flight[pos.msg], pos.off, [r] + tiles)
  {
    assert ([r] + tiles)[1..] == tiles;
  }

  // ----- the sender -----

  function TotalLength(packet: seq<SealedRecord>): nat {
    if packet == [] then 0 else packet[0].length + TotalLength(packet[1..])
  }

  lemma {:induction false} TotalLengthAppend(a: seq<SealedRecord>, r: SealedRecord)
    ensures TotalLength(a + [r]) == TotalLength(a) + r.length
  {
    if a == [] {
      assert (a + [r])[1..] == [];
    } else {
      assert (a + [r])[1..] == a[1..] + [r];
      TotalLengthAppend(a[1..], r);
    }
  }

  /** The plaintext is a piece of a message handed to the sender. */
  ghost predicate Genuine(history: seq<seq<byte>>, plaintext: seq<byte>) {
    exists k, off: nat, len: nat ::
      && 0 <= k < |history| && IsMessage(history[k]) && off + len <= |MessageBody(history[k])|
      && plaintext == Piece(history[k], off, len)
  }

  ghost predicate AllGenuine(history: seq<seq<byte>>, packet: seq<SealedRecord>) {
    forall i :: 0 <= i < |packet| && packet[i].recordType == RT_HANDSHAKE ==> Genuine(history, packet[i].plaintext)
  }

  /** A larger history has the same pieces and more. */
  lemma GenuineLater(history: seq<seq<byte>>, data: seq<byte>, plaintext: seq<byte>)
    requires Genuine(history, plaintext)
    ensures Genuine(history + [data], plaintext)
  {
    var k, off: nat, len: nat :|
      && 0 <= k < |history| && IsMessage(history[k]) && off + len <= |MessageBody(history[k])|
      && plaintext == Piece(history[k], off, len);
    assert (history + [data])[k] == history[k];
  }

  lemma AllGenuineLater(history: seq<seq<byte>>, data: seq<byte>, packet: seq<SealedRecord>)
    requires AllGenuine(history, packet)
    ensures AllGenuine(history + [data], packet)
  {
    forall i | 0 <= i < |packet| && packet[i].recordType == RT_HANDSHAKE
      ensures Genuine(history + [data], packet[i].plaintext)
    {
      GenuineLater(history, data, packet[i].plaintext);
    }
  }

  /** From some message on, the flight can be sent: each is a whole message, of the current epoch or the one before. */
  ghost predicate CanSend(flight: seq<Outgoing>, from: nat, writeEpoch: nat) {
    forall i :: from <= i < |flight| ==>
      && (flight[i].epoch == writeEpoch || flight[i].epoch + 1 == writeEpoch)
      && (flight[i].isCcs || IsMessage(flight[i].data))
  }

  /** The flight consists of messages of the history, and so does everything sent. */
  ghost predicate QueueOk(flight: seq<Outgoing>, history: seq<seq<byte>>, writeSeq: nat,
      packets: seq<seq<SealedRecord>>) {
    && writeSeq == |history| % 0x1_0000
    && |flight| <= MAX_FLIGHT
    && (forall i :: 0 <= i < |flight| && !flight[i].isCcs ==> flight[i].data in history)
    && (forall i :: 0 <= i < |packets| ==> AllGenuine(history, packets[i]))
  }

  /** Only a message with bytes left to send is half written. */
  ghost predicate PositionOk(flight: seq<Outgoing>, written: nat, offset: nat) {
    && written <= |flight|
    && (offset > 0 ==>
          && written < |flight| && !flight[written].isCcs && IsMessage(flight[written].data)
          && offset < |MessageBody(flight[written].data)|)
  }

  lemma AddKeepsQueue(flight: seq<Outgoing>, history: seq<seq<byte>>, writeSeq: nat, packets: seq<seq<SealedRecord>>,
      m: Outgoing)
    requires QueueOk(flight, history, writeSeq, packets) && |flight| < MAX_FLIGHT
    ensures if m.isCcs then QueueOk(flight + [m], history, writeSeq, packets)
            else QueueOk(flight + [m], history + [m.data], (writeSeq + 1) % 0x1_0000, packets)
  {
    if !m.isCcs {
      forall i | 0 <= i < |packets|
        ensures AllGenuine(history + [m.data], packets[i])
      {
        AllGenuineLater(history, m.data, packets[i]);
      }
    }
  }

  /** The packet carries pieces of messages added before, and takes the writer from `start` to `end`. */
  ghost predicate PacketOk(flight: seq<Outgoing>, history: seq<seq<byte>>, start: Position, packet: seq<SealedRecord>,
      end: Position) {
    AllGenuine(history, packet) && Walk(flight, start, packet) == Some(end)
  }

  /** So do these packets together, each within the MTU. */
  ghost predicate SentOk(flight: seq<Outgoing>, history: seq<seq<byte>>, start: Position, sent: seq<seq<SealedRecord>>,
                         end: Position, mtu: nat) {
    && PacketOk(flight, history, start, Flatten(sent), end)
    && forall i :: 0 <= i < |sent| ==> TotalLength(sent[i]) <= mtu
  }

  lemma PacketGrows(flight: seq<Outgoing>, history: seq<seq<byte>>, start: Position, packet: seq<SealedRecord>,
      here: Position, r: SealedRecord)
    requires PacketOk(flight, history, start, packet, here) && AllGenuine(history, [r]) && Step(flight, here, r).Some?
    ensures PacketOk(flight, history, start, packet + [r], Step(flight, here, r).value)
    ensures TotalLength(packet + [r]) == TotalLength(packet) + r.length
  {
    WalkAppend(flight, start, packet, [r]);
    WalkOne(flight, here, r);
    TotalLengthAppend(packet, r);
    assert [r][0] == r;
  }

  datatype SealResult = SealError | SealNoProgress | SealPartial(record: SealedRecord)
    | SealSuccess(record: SealedRecord)

  datatype FlightResult = FlightSent | FlightBlocked | FlightFailed

  class Sender {
    const records: Writer
    // The current flight and how far it has been written.
    var handshakeWriteSeq: nat
    var flight: seq<Outgoing>
    var written: nat
    var offset: nat
    var complete: bool
    var hasReply: bool
    var mtu: nat
    const queryMtu: bool
    var shutdown: bool
    /** All handshake messages ever added: what the transcript is computed over. */
    ghost var history: seq<seq<byte>>
    /** How often the transport has refused, and all packets that it has taken. */
    ghost var refusals: nat
    ghost var packets: seq<seq<SealedRecord>>

    ghost predicate Valid()
      reads this, records
    {
      && records.Valid()
      && QueueOk(flight, history, handshakeWriteSeq, packets)
      && PositionOk(flight, written, offset)
      && (!queryMtu ==> mtu >= MIN_MTU)
    }

    function Pos(): Position
      reads this
    {
      Position(written, offset)
    }

    /** What is left of the message being written, with its header. */
    ghost function BytesLeft(): nat
      requires PositionOk(flight, written, offset)
      reads this
    {
      if written < |flight| && offset <= |flight[written].data| then |flight[written].data| - offset else 0
    }

    constructor (mtu: nat, queryMtu: bool)
      requires !queryMtu ==> mtu >= MIN_MTU
      ensures Valid() && history == [] && packets == [] && flight == []
      ensures fresh(records) && records.attempts == [] && !records.spoilt
    {
      records := new Writer(DTLS1_VERSION);
      handshakeWriteSeq, flight, written, offset, complete, hasReply := 0, [], 0, 0, false, false;
      this.mtu, this.queryMtu, shutdown := mtu, queryMtu, false;
      history, packets, refusals := [], [], 0;
    }

    /** `dtls_clear_outgoing_messages`. */
    method ClearOutgoing()
      requires Valid()
      modifies this`flight, this`written, this`offset, this`complete, this`hasReply
      ensures Valid() && flight == [] && Pos() == Position(0, 0) && !complete && !hasReply
    {
      flight, written, offset, complete, hasReply := [], 0, 0, false, false;
    }

    /** `add_outgoing`: a message added after a flush starts a new flight. */
    method AddOutgoing(isCcs: bool, data: seq<byte>) returns (ok: bool)
      requires Valid()
      modifies this`flight, this`written, this`offset, this`complete, this`hasReply, this`handshakeWriteSeq
      modifies this`history
      ensures Valid() && !complete
      ensures var before := if old(complete) then [] else old(flight);
              && (ok <==> |before| < MAX_FLIGHT && |data| <= 0xffff_ffff)
              && flight == before + (if ok then [Outgoing(data, records.writeEpoch, isCcs)] else [])
              && history == old(history) + (if ok && !isCcs then [data] else [])
      ensures Pos() == if old(complete) then Position(0, 0) else old(Pos())
    {
      if complete {
        ClearOutgoing();
      }
      if |flight| >= MAX_FLIGHT || |data| > 0xffff_ffff {
        return false;
      }
      var msg := Outgoing(data, records.writeEpoch, isCcs);
      AddKeepsQueue(flight, history, handshakeWriteSeq, packets, msg);
      if !isCcs {
        history := history + [data];
        handshakeWriteSeq := (handshakeWriteSeq + 1) % 0x1_0000;
      }
      flight := flight + [msg];
      return true;
    }

    /** `dtls1_init_message`, the body, `dtls1_finish_message` and `dtls1_add_message`. */
    method AddMessage(msgType: byte, body: seq<byte>) returns (ok: bool)
      requires Valid()
      modifies this`flight, this`written, this`offset, this`complete, this`hasReply, this`handshakeWriteSeq
      modifies this`history
      ensures Valid()
      ensures ok <==> |body| < 0x100_0000 && (old(complete) || |old(flight)| < MAX_FLIGHT)
      ensures !ok ==> history == old(history)
      ensures ok ==>
                var data := BuildMessage(msgType, |old(history)| % 0x1_0000, body);
                && history == old(history) + [data]
                && flight == (if old(complete) then [] else old(flight)) + [Outgoing(data, records.writeEpoch, false)]
    {
      if |body| >= 0x100_0000 {
        return false;
      }
      BuiltIsMessage(msgType, handshakeWriteSeq, body);
      ok := AddOutgoing(false, BuildMessage(msgType, handshakeWriteSeq, body));
    }

    /** `seal_next_message`: one fragment of the next message, as long as there is room for. */
    method SealNextMessage(maxOut: nat) returns (result: SealResult)
      requires Valid() && written < |flight|
      modifies this`offset, records
      ensures old(records.spoilt) ==> records.spoilt
      ensures result.SealError? || result.SealNoProgress? ==> Valid() && offset == old(offset)
      ensures result.SealPartial? ==>
                && Valid() && old(offset) < offset
                && Step(flight, old(Pos()), result.record) == Some(Pos())
      ensures result.SealSuccess? ==>
                && offset == 0 && records.Valid()
                && Step(flight, old(Pos()), result.record) == Some(Position(written + 1, 0))
      ensures result.SealPartial? || result.SealSuccess? ==>
                && result.record.length <= maxOut
                && AllGenuine(history, [result.record])
      ensures flight[written].isCcs || IsMessage(flight[written].data) ==>
                (result.SealNoProgress? <==> old(EpochKnown(flight[written]) && TooLittle(maxOut)))
      ensures result.SealNoProgress? ==> TooLittle(maxOut)
      ensures result.SealPartial? ==> offset == old(offset + FullPiece(maxOut))
      ensures result.SealSuccess? && !flight[written].isCcs ==>
                |MessageBody(flight[written].data)| - old(offset) <= old(FullPiece(maxOut))
      ensures records.writeEpoch == old(records.writeEpoch) && old(records.failures) <= records.failures
      ensures result.SealError? ==>
                || records.failures > old(records.failures) || !old(EpochKnown(flight[written]))
                || !(flight[written].isCcs || IsMessage(flight[written].data))
    {
      var msg := flight[written];
      var previous := false;
      if records.writeEpoch >= 1 && msg.epoch == records.writeEpoch - 1 {
        previous := true;
      } else if msg.epoch != records.writeEpoch {
        return SealError;
      }
      if msg.isCcs {
        if maxOut < 1 + records.SealOverhead(previous) {
          return SealNoProgress;
        }
        // The byte that it seals is a constant somewhere else in memory.
        var elsewhere: int :| elsewhere < 0;
        var r := SealCcs(previous, elsewhere, maxOut);
        return if r.None? then SealError else SealSuccess(r.value);
      }
      result := SealNextFragment(previous, maxOut);
    }

    /** The room does not do for a ChangeCipherSpec, or not for one byte of the next message. */
    predicate TooLittle(maxOut: nat)
      requires written < |flight|
      reads this, records
    {
      var previous := flight[written].epoch != records.writeEpoch;
      if flight[written].isCcs then maxOut < 1 + records.SealOverhead(previous)
      else maxOut < HEADER_LENGTH + 1 + records.SealOverhead(previous) || maxOut < records.SealPrefix(previous)
    }

    /** How much of a message goes into the room, at most. */
    function FullPiece(maxOut: nat): int
      requires written < |flight|
      reads this, records
    {
      maxOut - HEADER_LENGTH - records.SealOverhead(flight[written].epoch != records.writeEpoch)
    }

    predicate EpochKnown(msg: Outgoing)
      reads this, records
    {
      EpochIs(true, msg) || EpochIs(false, msg)
    }

    /** The rest of `seal_next_message`, for a message that is not a ChangeCipherSpec. */
    method SealNextFragment(previous: bool, maxOut: nat) returns (result: SealResult)
      requires Valid() && written < |flight| && !flight[written].isCcs && EpochIs(previous, flight[written])
      modifies this`offset, records
      ensures old(records.spoilt) ==> records.spoilt
      ensures result.SealError? || result.SealNoProgress? ==> Valid() && offset == old(offset)
      ensures result.SealPartial? ==>
                && Valid() && old(offset) < offset
                && Step(flight, old(Pos()), result.record) == Some(Pos())
      ensures result.SealSuccess? ==>
                && offset == 0 && records.Valid()
                && Step(flight, old(Pos()), result.record) == Some(Position(written + 1, 0))
      ensures result.SealPartial? || result.SealSuccess? ==>
                && result.record.length <= maxOut
                && AllGenuine(history, [result.record])
      ensures IsMessage(flight[written].data) ==> (result.SealNoProgress? <==> old(TooLittle(maxOut)))
      ensures result.SealNoProgress? ==> TooLittle(maxOut)
      ensures result.SealPartial? ==> offset == old(offset + FullPiece(maxOut))
      ensures result.SealSuccess? ==>
                |MessageBody(flight[written].data)| - old(offset) <= old(FullPiece(maxOut))
      ensures records.writeEpoch == old(records.writeEpoch) && old(records.failures) <= records.failures
      ensures result.SealError? ==> records.failures > old(records.failures) || !IsMessage(flight[written].data)
    {
      var msg, overhead, prefix := flight[written], records.SealOverhead(previous), records.SealPrefix(previous);
      var parsed := ParseFragment(msg.data);
      if parsed.None? {
        return SealError;
      }
      var Fragment(header, whole, rest) := parsed.value;
      if header.fragOff != 0 || header.fragLen != |whole| || header.msgLen != |whole| || offset > |whole|
        || rest != [] {
        return SealError;
      }
      var left := |whole| - offset;

      if maxOut < HEADER_LENGTH + 1 + overhead || maxOut < prefix {
        return SealNoProgress;
      }
      var todo := left;
      if todo > maxOut - HEADER_LENGTH - overhead {
        todo := maxOut - HEADER_LENGTH - overhead;
      }
      assert HEADER_LENGTH + todo <= maxOut - prefix;
      var r := SealPiece(previous, msg, header, whole, todo, maxOut);
      if r.None? {
        return SealError;
      }
      if todo == left {
        offset := 0;
        return SealSuccess(r.value);
      }
      offset := offset + todo;
      return SealPartial(r.value);
    }

    /** The message was added in the current epoch, or in the previous one. */
    predicate EpochIs(previous: bool, msg: Outgoing)
      reads this, records
    {
      if previous then records.writeEpoch >= 1 && msg.epoch == records.writeEpoch - 1
        else msg.epoch == records.writeEpoch
    }

    /** Seal a ChangeCipherSpec. */
    method SealCcs(previous: bool, inputAt: int, maxOut: nat) returns (r: Option<SealedRecord>)
      requires records.Valid() && written < |flight| && flight[written].isCcs && EpochIs(previous, flight[written])
      requires inputAt < 0 && maxOut >= 1 + records.SealOverhead(previous)
      modifies records
      ensures records.Valid() && (old(records.spoilt) ==> records.spoilt)
      ensures r.Some? ==>
                && r.value.length <= 1 + old(records.SealOverhead(previous))
                && AllGenuine(history, [r.value])
                && Step(flight, Pos(), r.value) == Some(Position(written + 1, 0))
      ensures records.failures == old(records.failures) + if r.Some? then 0 else 1
      ensures records.writeEpoch == old(records.writeEpoch)
    {
      r := records.SealRecord(previous, RT_CHANGE_CIPHER_SPEC, [1], inputAt, maxOut);
    }

    /** Assemble and seal the fragment that carries the next `todo` bytes. */
    method SealPiece(previous: bool, msg: Outgoing, header: Header, whole: seq<byte>, todo: nat, maxOut: nat)
      returns (r: Option<SealedRecord>)
      requires records.Valid() && QueueOk(flight, history, handshakeWriteSeq, packets) && written < |flight|
               && flight[written] == msg && !msg.isCcs
      requires EpochIs(previous, msg)
      requires IsMessage(msg.data) && ParseFragment(msg.data) == Some(Fragment(header, whole, []))
      requires offset + todo <= |whole| && (todo > 0 || offset == |whole|)
      requires maxOut >= HEADER_LENGTH + 1 + records.SealOverhead(previous) && maxOut >= records.SealPrefix(previous)
      modifies records
      ensures records.Valid() && (old(records.spoilt) ==> records.spoilt)
      ensures r.Some? ==>
                && r.value.length <= HEADER_LENGTH + todo + old(records.SealOverhead(previous))
                && AllGenuine(history, [r.value])
                && Step(flight, Pos(), r.value) ==
                   Some(if offset + todo == |whole| then Position(written + 1, 0) else Position(written, offset + todo))
      ensures records.failures == old(records.failures) + if r.Some? then 0 else 1
      ensures records.writeEpoch == old(records.writeEpoch)
    {
      var fragment := header.(fragOff := offset, fragLen := todo).Encode() + whole[offset..offset + todo];
      assert fragment == Piece(msg.data, offset, todo);
      PieceIsGenuine(history, msg.data, offset, todo);
      r := records.SealRecord(previous, RT_HANDSHAKE, fragment, records.SealPrefix(previous), maxOut);
      if r.Some? {
        PieceSteps(flight, Pos(), r.value, todo);
      }
    }

    /** One turn of `seal_next_packet`: the next fragment, if it fits what is left of the packet. The packet
        goes on after a message that is complete. */
    method SealIntoPacket(packet: seq<SealedRecord>, maxOut: nat, ghost start: Position)
      returns (ok: bool, more: bool, next: seq<SealedRecord>, left: nat)
      requires Valid() && written < |flight| && PacketOk(flight, history, start, packet, Pos())
      modifies this`written, this`offset, records
      ensures records.Valid() && (old(records.spoilt) ==> records.spoilt)
      ensures PositionOk(flight, written, offset)
      ensures ok ==> PacketOk(flight, history, start, next, Pos())
      ensures ok ==> left + TotalLength(next) == maxOut + TotalLength(packet)
      ensures written == old(written) + if ok && more then 1 else 0
      ensures ok && !more ==> written < |flight| && ((offset > 0 && next != []) || TooLittle(left))
      ensures records.writeEpoch == old(records.writeEpoch) && old(records.failures) <= records.failures
      ensures !ok ==> records.failures > old(records.failures) || !CanSend(flight, old(written), records.writeEpoch)
      ensures ok && next == packet ==> Pos() == old(Pos())
    {
      ghost var here := Pos();
      var result := SealNextMessage(maxOut);
      if result.SealError? {
        return false, false, packet, maxOut;
      }
      if result.SealNoProgress? {
        return true, false, packet, maxOut;
      }
      PacketGrows(flight, history, start, packet, here, result.record);
      ok, more, next, left := true, result.SealSuccess?, packet + [result.record], maxOut - result.record.length;
      if more {
        written := written + 1;
      }
    }

    /** `seal_next_packet`: as many fragments as fit one packet. */
    method SealNextPacket(mtu: nat) returns (ok: bool, packet: seq<SealedRecord>)
      requires Valid() && written < |flight|
      modifies this`written, this`offset, records
      ensures Valid() && (old(records.spoilt) ==> records.spoilt)
      ensures ok ==>
                && packet != [] && TotalLength(packet) <= mtu
                && PacketOk(flight, history, old(Pos()), packet, Pos())
                && (old(written) < written || (old(written) == written && old(offset) < offset))
      ensures ok && written < |flight| ==> offset > 0 || TooLittle(mtu - TotalLength(packet))
      ensures records.writeEpoch == old(records.writeEpoch) && old(records.failures) <= records.failures
      ensures !ok ==>
                || records.failures > old(records.failures) || !CanSend(flight, old(written), records.writeEpoch)
                || (Pos() == old(Pos()) && TooLittle(mtu))
      ensures old(written) <= written
    {
      packet := [];
      var maxOut: nat, more: bool := mtu, true;
      ghost var start := Pos();
      while more && written < |flight|
        invariant records.Valid() && PositionOk(flight, written, offset) && (old(records.spoilt) ==> records.spoilt)
        invariant PacketOk(flight, history, start, packet, Pos()) && maxOut + TotalLength(packet) == mtu
        invariant records.writeEpoch == old(records.writeEpoch) && old(records.failures) <= records.failures
        invariant old(written) <= written && (packet == [] ==> Pos() == old(Pos()))
        invariant !more ==> written < |flight| && ((offset > 0 && packet != []) || TooLittle(maxOut))
        decreases more, |flight| - written
      {
        ok, more, packet, maxOut := SealIntoPacket(packet, maxOut, start);
        if !ok {
          return;
        }
      }
      if packet != [] {
        WalkProgress(flight, start, packet);
      }
      ok := packet != [];
    }

    /** `dtls1_update_mtu`: ask the transport if there is no usable MTU, and fall back to the default. */
    method UpdateMtu()
      modifies this`mtu
      ensures queryMtu ==> mtu >= MIN_MTU
      ensures old(mtu) >= MIN_MTU || !queryMtu ==> mtu == old(mtu)
    {
      if mtu < MIN_MTU && queryMtu {
        var answer: int := *;
        if MIN_MTU <= answer <= 0x4000_0000 {
          mtu := answer;
        } else {
          mtu := DEFAULT_MTU;
        }
      }
    }

    /** One round of `send_flight`. What the transport takes is open; a packet it refuses is rewound. */
    method SendPacket() returns (result: FlightResult, ghost packet: seq<SealedRecord>)
      requires Valid() && written < |flight|
      modifies this`written, this`offset, this`packets, this`refusals, records
      ensures Valid() && (old(records.spoilt) ==> records.spoilt)
      ensures packets == old(packets) + if result.FlightSent? then [packet] else []
      ensures result.FlightBlocked? ==> Pos() == old(Pos())
      ensures old(written) <= written
      ensures result.FlightSent? ==>
                && packet != [] && TotalLength(packet) <= mtu
                && PacketOk(flight, history, old(Pos()), packet, Pos())
                && (old(written) < written || (old(written) == written && old(offset) < offset))
      ensures records.writeEpoch == old(records.writeEpoch) && old(records.failures) <= records.failures
      ensures result.FlightFailed? ==>
                || records.failures > old(records.failures) || !CanSend(flight, old(written), records.writeEpoch)
                || (written < |flight| && TooLittle(mtu))
      ensures old(refusals) <= refusals && (result.FlightBlocked? ==> refusals > old(refusals))
    {
      var oldWritten, oldOffset := written, offset;
      var ok, sealed := SealNextPacket(mtu);
      packet := sealed;
      if !ok {
        return FlightFailed, packet;
      }
      var taken: bool := *;
      if !taken {
        refusals := refusals + 1;
        written, offset := oldWritten, oldOffset;
        return FlightBlocked, packet;
      }
      packets := packets + [packet];
      return FlightSent, packet;
    }

    /** The next round, after the packets sent before. */
    method SendAfter(ghost start: Position, ghost before: seq<seq<SealedRecord>>)
      returns (result: FlightResult, ghost packet: seq<SealedRecord>)
      requires Valid() && written < |flight| && SentOk(flight, history, start, before, Pos(), mtu)
      modifies this`written, this`offset, this`packets, this`refusals, records
      ensures Valid() && (old(records.spoilt) ==> records.spoilt)
      ensures packets == old(packets) + if result.FlightSent? then [packet] else []
      ensures result.FlightBlocked? ==> Pos() == old(Pos())
      ensures result.FlightSent? ==>
                && SentOk(flight, history, start, before + [packet], Pos(), mtu)
                && (old(written) < written || (old(written) == written && BytesLeft() < old(BytesLeft())))
      ensures records.writeEpoch == old(records.writeEpoch) && old(records.failures) <= records.failures
      ensures result.FlightFailed? ==>
                || records.failures > old(records.failures) || !CanSend(flight, old(written), records.writeEpoch)
                || (written < |flight| && TooLittle(mtu))
      ensures old(refusals) <= refusals && (result.FlightBlocked? ==> refusals > old(refusals))
    {
      ghost var here := Pos();
      result, packet := SendPacket();
      if result.FlightSent? {
        FlightGrows(flight, history, start, before, here, packet, Pos(), mtu);
      }
    }

    /** The loop of `send_flight`: packet after packet until the flight is written. */
    method SendPackets() returns (result: FlightResult, ghost sent: seq<seq<SealedRecord>>, ghost end: Position)
      requires Valid()
      modifies this`written, this`offset, this`packets, this`refusals, records
      ensures Valid() && (old(records.spoilt) ==> records.spoilt)
      ensures packets == old(packets) + sent
      ensures SentOk(flight, history, old(Pos()), sent, end, mtu) && (!result.FlightFailed? ==> end == Pos())
      ensures result.FlightSent? ==> written == |flight| && offset == 0
      ensures records.writeEpoch == old(records.writeEpoch) && old(records.failures) <= records.failures
      ensures result.FlightFailed? ==>
                || records.failures > old(records.failures) || !CanSend(flight, old(written), records.writeEpoch)
                || (written < |flight| && TooLittle(mtu))
      ensures old(refusals) <= refusals && (result.FlightBlocked? ==> refusals > old(refusals))
    {
      sent, end, result := [], Pos(), FlightSent;
      ghost var start, before := Pos(), packets;
      while written < |flight|
        invariant Valid() && (old(records.spoilt) ==> records.spoilt)
        invariant packets == before + sent && SentOk(flight, history, start, sent, end, mtu) && end == Pos()
        invariant records.writeEpoch == old(records.writeEpoch) && old(records.failures) <= records.failures
        invariant old(written) <= written && old(refusals) <= refusals
        decreases |flight| - written, BytesLeft()
      {
        ghost var packet;
        result, packet := SendAfter(start, sent);
        if !result.FlightSent? {
          return;
        }
        assert before + sent + [packet] == before + (sent + [packet]);
        sent, end := sent + [packet], Pos();
      }
      result := FlightSent;
    }

    /** `send_flight`: `sent` are the packets that the transport took. */
    method SendFlight() returns (result: FlightResult, ghost sent: seq<seq<SealedRecord>>, ghost end: Position)
      requires Valid()
      modifies this`mtu, this`written, this`offset, this`packets, this`refusals, records
      ensures Valid() && (old(records.spoilt) ==> records.spoilt)
      ensures packets == old(packets) + sent
      ensures SentOk(flight, history, old(Pos()), sent, end, mtu) && (!result.FlightFailed? ==> end == Pos())
      ensures result.FlightSent? ==> written == |flight| && offset == 0
      ensures records.writeEpoch == old(records.writeEpoch) && old(records.failures) <= records.failures
      ensures result.FlightFailed? ==>
                || shutdown || records.failures > old(records.failures)
                || !CanSend(flight, old(written), records.writeEpoch) || (written < |flight| && TooLittle(mtu))
      ensures old(refusals) <= refusals && (result.FlightBlocked? ==> refusals > old(refusals))
    {
      if shutdown {
        return FlightFailed, [], Pos();
      }
      UpdateMtu();
      result, sent, end := SendPackets();
      if result.FlightSent? {
        var flushed: bool := *;
        if !flushed {
          refusals := refusals + 1;
          result := FlightBlocked;
        }
      }
    }

    /** `dtls1_flush_flight`. */
    method FlushFlight() returns (result: FlightResult, ghost sent: seq<seq<SealedRecord>>, ghost end: Position)
      requires Valid()
      modifies this`complete, this`mtu, this`written, this`offset, this`packets, this`refusals, records
      ensures Valid() && complete && (old(records.spoilt) ==> records.spoilt)
      ensures packets == old(packets) + sent
      ensures SentOk(flight, history, old(Pos()), sent, end, mtu) && (!result.FlightFailed? ==> end == Pos())
      ensures result.FlightSent? ==> written == |flight| && offset == 0
      ensures records.writeEpoch == old(records.writeEpoch) && old(records.failures) <= records.failures
      ensures result.FlightFailed? ==>
                || shutdown || records.failures > old(records.failures)
                || !CanSend(flight, old(written), records.writeEpoch) || (written < |flight| && TooLittle(mtu))
      ensures old(refusals) <= refusals && (result.FlightBlocked? ==> refusals > old(refusals))
    {
      complete := true;
      result, sent, end := SendFlight();
    }

    /** `dtls1_retransmit_outgoing_messages`: from the start of the flight again. When it gets through, the
        packets it sent tile every message of the flight. */
    method Retransmit() returns (result: FlightResult, ghost sent: seq<seq<SealedRecord>>,
        ghost groups: seq<seq<SealedRecord>>)
      requires Valid()
      modifies this`mtu, this`written, this`offset, this`packets, this`refusals, records
      ensures Valid() && (old(records.spoilt) ==> records.spoilt)
      ensures packets == old(packets) + sent
      ensures forall i :: 0 <= i < |sent| ==> TotalLength(sent[i]) <= mtu
      ensures result.FlightSent? ==> written == |flight| && Grouped(flight, 0, 0, groups, Flatten(sent))
      ensures records.writeEpoch == old(records.writeEpoch) && old(records.failures) <= records.failures
      ensures result.FlightFailed? ==>
                || shutdown || records.failures > old(records.failures)
                || !CanSend(flight, 0, records.writeEpoch) || (written < |flight| && TooLittle(mtu))
      ensures old(refusals) <= refusals && (result.FlightBlocked? ==> refusals > old(refusals))
    {
      written, offset := 0, 0;
      ghost var end;
      result, sent, end := SendFlight();
      groups := [];
      if result.FlightSent? {
        groups := WalkTiles(flight, Position(0, 0), Flatten(sent));
      }
    }

    /** The part of `dtls1_next_message` that notes a reply to a completed flight. */
    method NoteReply()
      requires Valid()
      modifies this`hasReply
      ensures Valid() && hasReply == (old(hasReply) || complete)
    {
      if complete {
        hasReply := true;
      }
    }

    /** `dtls1_on_handshake_complete`: a flight the peer has answered need not be kept. */
    method OnHandshakeComplete()
      requires Valid()
      modifies this`flight, this`written, this`offset, this`complete, this`hasReply
      ensures Valid() && (if old(hasReply) then flight == [] else flight == old(flight) && Pos() == old(Pos()))
    {
      if hasReply {
        ClearOutgoing();
      }
    }
  }

  lemma FlightGrows(flight: seq<Outgoing>, history: seq<seq<byte>>, start: Position, sent: seq<seq<SealedRecord>>,
                    here: Position, packet: seq<SealedRecord>, end: Position, mtu: nat)
    requires SentOk(flight, history, start, sent, here, mtu)
    requires PacketOk(flight, history, here, packet, end) && TotalLength(packet) <= mtu
    ensures SentOk(flight, history, start, sent + [packet], end, mtu)
  {
    FlattenAppend(sent, packet);
    WalkAppend(flight, start, Flatten(sent), packet);
  }

  lemma PieceSteps(flight: seq<Outgoing>, pos: Position, r: SealedRecord, len: nat)
    requires pos.msg < |flight| && !flight[pos.msg].isCcs && IsMessage(flight[pos.msg].data)
    requires pos.off + len <= |MessageBody(flight[pos.msg].data)|
    requires len > 0 || pos.off == |MessageBody(flight[pos.msg].data)|
    requires r.recordType == RT_HANDSHAKE && r.plaintext == Piece(flight[pos.msg].data, pos.off, len)
    requires r.nonce.epoch == flight[pos.msg].epoch
    ensures Step(flight, pos, r) ==
            Some(if pos.off + len == |MessageBody(flight[pos.msg].data)| then Position(pos.msg + 1, 0)
                 else Position(pos.msg, pos.off + len))
  {
  }

  lemma PieceIsGenuine(history: seq<seq<byte>>, raw: seq<byte>, off: nat, len: nat)
    requires raw in history && IsMessage(raw) && off + len <= |MessageBody(raw)|
    ensures Genuine(history, Piece(raw, off, len))
  {
    var k :| 0 <= k < |history| && history[k] == raw;
    assert Piece(raw, off, len) == Piece(history[k], off, len);
  }
}
