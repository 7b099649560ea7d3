/** The TLS write path: records are sealed into two queues, `write_buffer` and `pending_flight`, which a
    transport drains that takes any part of what it is offered, or nothing. */
module TlsWriter {
  import opened Bytes
  import opened Wrappers
  import opened SslBuffer

  const RT_CHANGE_CIPHER_SPEC := 20
  const RT_ALERT := 21
  const RT_HANDSHAKE := 22
  const RT_APPLICATION_DATA := 23

  const MAX_PLAIN_LENGTH := 16384
  const INT_MAX := 0x7fff_ffff

  const AL_WARNING := 1
  const AL_FATAL := 2
  const AD_CLOSE_NOTIFY := 0

  datatype Shutdown = NoShutdown | ClosedNotify | ClosedError

  /** A record: what was put in, and what came out of the AEAD. */
  datatype Record = Record(recordType: nat, plaintext: seq<byte>, sealed: seq<byte>)

  /** All sealed bytes, in sealing order. */
  function Flat(records: seq<Record>): seq<byte> {
    if records == [] then [] else Flat(records[..|records| - 1]) + records[|records| - 1].sealed
  }

  /** The plaintext of all records of one type. */
  function Plaintext(records: seq<Record>, recordType: nat): seq<byte> {
    if records == [] then []
    else
      var last := records[|records| - 1];
      Plaintext(records[..|records| - 1], recordType) + if last.recordType == recordType then last.plaintext else []
  }

  /** One more record has been sealed, of this type and with this plaintext. */
  predicate IsOneMore(before: seq<Record>, after: seq<Record>, recordType: nat, plaintext: seq<byte>) {
    && |after| == |before| + 1 && after[..|before|] == before
    && after[|before|].recordType == recordType && after[|before|].plaintext == plaintext
  }

  lemma OneMore(records: seq<Record>, r: Record)
    ensures Flat(records + [r]) == Flat(records) + r.sealed
    ensures forall t :: Plaintext(records + [r], t) == Plaintext(records, t) + if r.recordType == t then r.plaintext
              else []
  {
    assert (records + [r])[..|records|] == records;
  }

  lemma {:induction false} AddedOfOtherType(records: seq<Record>, added: seq<Record>, recordType: nat, other: nat)
    requires recordType != other && forall i :: 0 <= i < |added| ==> added[i].recordType == recordType
    ensures Plaintext(records + added, other) == Plaintext(records, other)
  {
    if added == [] {
      assert records + added == records;
    } else {
      var init, last := added[..|added| - 1], added[|added| - 1];
      AddedOfOtherType(records, init, recordType, other);
      assert records + added == (records + init) + [last];
      OneMore(records + init, last);
    }
  }

  /** Nothing lost, repeated or reordered: what the transport has, then the buffer, then the rest of the
      flight, are the sealed records. */
  predicate InOrder(sent: seq<byte>, buffered: seq<byte>, flight: seq<byte>, records: seq<Record>) {
    Flat(records) == sent + buffered + flight
  }

  lemma AddedToFlight(sent: seq<byte>, buffered: seq<byte>, flight: seq<byte>, records: seq<Record>, r: Record)
    requires InOrder(sent, buffered, flight, records)
    ensures InOrder(sent, buffered, flight + r.sealed, records + [r])
  {
    OneMore(records, r);
    assert sent + buffered + flight + r.sealed == sent + buffered + (flight + r.sealed);
  }

  lemma TakenFromBuffer(sent: seq<byte>, buffered: seq<byte>, flight: seq<byte>, records: seq<Record>, n: nat)
    requires InOrder(sent, buffered, flight, records) && n <= |buffered|
    ensures InOrder(sent + buffered[..n], buffered[n..], flight, records)
  {
    assert buffered == buffered[..n] + buffered[n..];
    assert sent + (buffered[..n] + buffered[n..]) == sent + buffered[..n] + buffered[n..];
  }

  lemma AllTaken(sent: seq<byte>, records: seq<Record>)
    requires InOrder(sent, [], [], records)
    ensures sent == Flat(records)
  {
  }

  lemma TakenFromFlight(sent: seq<byte>, flight: seq<byte>, records: seq<Record>, n: nat)
    requires InOrder(sent, [], flight, records) && n <= |flight|
    ensures InOrder(sent + flight[..n], [], flight[n..], records)
  {
    assert flight == flight[..n] + flight[n..];
    assert sent + [] == sent && sent + flight[..n] + [] == sent + flight[..n];
    assert sent + (flight[..n] + flight[n..]) == sent + flight[..n] + flight[n..];
  }

  lemma MovedToBuffer(sent: seq<byte>, buffered: seq<byte>, flight: seq<byte>, records: seq<Record>)
    requires InOrder(sent, buffered, flight, records)
    ensures InOrder(sent, buffered + flight, [], records)
  {
    assert sent + (buffered + flight) + [] == sent + buffered + flight;
  }

  lemma AddedToBuffer(sent: seq<byte>, buffered: seq<byte>, records: seq<Record>, r: Record)
    requires InOrder(sent, buffered, [], records)
    ensures InOrder(sent, buffered + r.sealed, [], records + [r])
  {
    OneMore(records, r);
    assert sent + (buffered + r.sealed) + [] == sent + buffered + [] + r.sealed;
  }

  /** How a write ends. One that was interrupted before is completed, if it is the same again, or stays;
      otherwise a new record is sealed, and sent completely or interrupted; or nothing happens. */
  predicate WriteEnds(was: Interrupted, now: Interrupted, ret: int, recordType: nat, len: nat, added: bool) {
    if was.pending then
      !added && now == was.(pending := ret <= 0)
        && (ret > 0 ==> ret == was.length <= len && was.recordType == recordType)
    else if added then
      now == Interrupted(ret <= 0, recordType, len) && (ret > 0 ==> ret == len)
    else ret <= 0 && now == was
  }

  /** `wpend_pending`, `wpend_type` and `wpend_ret`. */
  datatype Interrupted = Interrupted(pending: bool, recordType: nat, length: nat)

  /** The length of an interrupted write of application data. */
  function InFlight(i: Interrupted): nat {
    if i.pending && i.recordType == RT_APPLICATION_DATA then i.length else 0
  }

  /** The application data sealed is `base` and then so much of `input`. */
  predicate Sealed(records: seq<Record>, base: seq<byte>, input: seq<byte>, n: nat) {
    n <= |input| && Plaintext(records, RT_APPLICATION_DATA) == base + input[..n]
  }

  /** A record of the application data to be written: it is full, unless it has the end of the data, or is early
      data. */
  predicate ChunkOf(r: Record, input: seq<byte>, size: nat, early: bool) {
    && r.recordType == RT_APPLICATION_DATA && 0 < |r.plaintext| <= size && |r.plaintext| <= |input|
    && (early || |r.plaintext| == size || r.plaintext == input[|input| - |r.plaintext|..])
  }

  /** All the records sealed in between are of that kind. */
  predicate InChunks(before: seq<Record>, after: seq<Record>, input: seq<byte>, size: nat, early: bool) {
    && |before| <= |after| && after[..|before|] == before
    && forall i :: |before| <= i < |after| ==> ChunkOf(after[i], input, size, early)
  }

  lemma MoreChunks(a: seq<Record>, b: seq<Record>, c: seq<Record>, input: seq<byte>, size: nat, early: bool)
    requires InChunks(a, b, input, size, early) && InChunks(b, c, input, size, early)
    ensures InChunks(a, c, input, size, early)
  {
    assert c[..|a|] == b[..|a|];
    forall i | |a| <= i < |c|
      ensures ChunkOf(c[i], input, size, early)
    {
      assert i < |b| ==> c[i] == b[i];
    }
  }

  /** What is known of the records while application data is written: since `before`, only chunks of it have been
      sealed, and the first `n` bytes of it, if that was so at the start. */
  ghost predicate DataOn(before: seq<Record>, records: seq<Record>, input: seq<byte>, size: nat, early: bool,
      base: seq<byte>, settled: bool, n: nat) {
    && InChunks(before, records, input, size, early)
    && (settled ==> Sealed(records, base, input, n))
  }

  lemma DataGoesOn(
    before: seq<Record>, was: seq<Record>, records: seq<Record>, record: Record, added: bool, old_: Interrupted,
    now: Interrupted, ret: int, input: seq<byte>, size: nat, early: bool, base: seq<byte>, settled: bool, tot: nat,
    nw: nat)
    requires DataOn(before, was, input, size, early, base, settled, tot + InFlight(old_))
    requires records == was + if added then [record] else []
    requires tot + nw <= |input| && record.recordType == RT_APPLICATION_DATA && record.plaintext == input[tot..tot + nw]
    requires (added ==> nw > 0) && nw <= size && (early || nw == size || tot + nw == |input|)
    requires WriteEnds(old_, now, ret, RT_APPLICATION_DATA, nw, added)
    ensures DataOn(before, records, input, size, early, base, settled,
              tot + (if ret > 0 then ret else 0) + InFlight(now))
    ensures ret > 0 ==> ret <= nw && InFlight(now) == 0
  {
    OneChunk(was, records, record, added, input, tot, nw, size, early);
    MoreChunks(before, was, records, input, size, early);
    ChunkSeals(was, records, record, added, old_, now, ret, base, input, tot, nw);
  }

  lemma OneChunk(before: seq<Record>, after: seq<Record>, record: Record, added: bool, input: seq<byte>, tot: nat,
      nw: nat, size: nat, early: bool)
    requires after == before + if added then [record] else []
    requires record.recordType == RT_APPLICATION_DATA && (added ==> nw > 0)
    requires tot + nw <= |input| && record.plaintext == input[tot..tot + nw]
    requires nw <= size && (early || nw == size || tot + nw == |input|)
    ensures InChunks(before, after, input, size, early)
  {
    assert after[..|before|] == before;
  }

  /** A write of the bytes that come next. */
  lemma WriteSeals(
    records: seq<Record>, record: Record, added: bool, was: Interrupted, now: Interrupted, ret: int,
    base: seq<byte>, input: seq<byte>, tot: nat, nw: nat)
    requires tot + nw <= |input| && record.recordType == RT_APPLICATION_DATA && record.plaintext == input[tot..tot + nw]
    requires WriteEnds(was, now, ret, RT_APPLICATION_DATA, nw, added)
    requires Sealed(records, base, input, tot + InFlight(was))
    ensures Sealed(records + if added then [record] else [], base, input,
                   tot + (if ret > 0 then ret else 0) + InFlight(now))
    ensures ret > 0 ==> ret <= nw && InFlight(now) == 0
  {
    assert records + [] == records;
    if added {
      OneMore(records, record);
      assert input[..tot] + input[tot..tot + nw] == input[..tot + nw];
      assert base + input[..tot] + record.plaintext == base + input[..tot + nw];
    }
  }

  /** What a write does to the record of what is sealed. */
  lemma ChunkSeals(
    before: seq<Record>, after: seq<Record>, record: Record, added: bool, was: Interrupted, now: Interrupted, ret: int,
    base: seq<byte>, input: seq<byte>, tot: nat, nw: nat)
    requires after == before + if added then [record] else []
    requires tot + nw <= |input| && record.recordType == RT_APPLICATION_DATA && record.plaintext == input[tot..tot + nw]
    requires WriteEnds(was, now, ret, RT_APPLICATION_DATA, nw, added)
    ensures Sealed(before, base, input, tot + InFlight(was)) ==>
              Sealed(after, base, input, tot + (if ret > 0 then ret else 0) + InFlight(now))
    ensures ret > 0 ==> ret <= nw && InFlight(now) == 0
  {
    OneMore(before, record);
    assert before + [] == before;
    if Sealed(before, base, input, tot + InFlight(was)) {
      WriteSeals(before, record, added, was, now, ret, base, input, tot, nw);
    }
  }

  /** What the write of an alert does. */
  lemma AlertEnds(before: seq<Record>, after: seq<Record>, record: Record, added: bool, was: Interrupted,
      now: Interrupted, ret: int)
    requires after == before + (if added then [record] else []) && record.recordType == RT_ALERT
    requires WriteEnds(was, now, ret, RT_ALERT, |record.plaintext|, added)
    ensures Plaintext(after, RT_APPLICATION_DATA) == Plaintext(before, RT_APPLICATION_DATA)
    ensures InFlight(now) == InFlight(was) && (ret > 0 && !was.pending ==> added)
    ensures if added then IsOneMore(before, after, RT_ALERT, record.plaintext) else after == before
  {
    OneMore(before, record);
    assert before + [] == before && (added ==> after[..|before|] == before);
  }

  /** The records carry a message up to `rest`, in order, in chunks of the given size of which only the last
      of the message may be shorter. */
  predicate Chunked(records: seq<Record>, recordType: nat, message: seq<byte>, rest: seq<byte>, size: nat) {
    && Plaintext(records, recordType) + rest == message
    && (forall i :: 0 <= i < |records| ==> records[i].recordType == recordType && |records[i].plaintext| <= size)
    && (forall i :: 0 <= i < |records| - 1 ==> |records[i].plaintext| == size)
    && (rest != [] ==> forall i :: 0 <= i < |records| ==> |records[i].plaintext| == size)
  }

  lemma NextChunk(records: seq<Record>, r: Record, message: seq<byte>, rest: seq<byte>, size: nat)
    requires Chunked(records, r.recordType, message, rest, size) && (records == [] || rest != [])
    requires r.plaintext == rest[..if |rest| < size then |rest| else size]
    ensures Chunked(records + [r], r.recordType, message, rest[|r.plaintext|..], size)
  {
    OneMore(records, r);
    assert rest == r.plaintext + rest[|r.plaintext|..];
    var before := Plaintext(records, r.recordType);
    assert before + (r.plaintext + rest[|r.plaintext|..]) == before + r.plaintext + rest[|r.plaintext|..];
  }

  class Writer {
    const buffer: Buffer
    var pendingFlight: Option<seq<byte>>
    var flightOffset: nat
    var wnum: nat
    var wpendTot: nat
    var wpendBuf: nat
    var wpendType: nat
    var wpendRet: nat
    var wpendPending: bool
    var writeShutdown: Shutdown
    var alertDispatch: bool
    var sendAlert: seq<byte>
    /** How often the transport, the AEAD or memory has refused, and how often a write of the alert has been
        attempted. */
    ghost var refusals: nat
    ghost var dispatched: nat
    const maxSendFragment: nat
    /** `SSL_MODE_ENABLE_PARTIAL_WRITE` and `SSL_MODE_ACCEPT_MOVING_WRITE_BUFFER`. */
    const partialWrite: bool
    const movingBuffer: bool
    var sealOverhead: nat
    var sealPrefix: nat
    /** A client that may still write early data, how much the ticket allows, and how much was written. */
    var inEarlyData: bool
    var canEarlyWrite: bool
    var maxEarlyData: nat
    var earlyDataWritten: nat
    /** What the transport has taken, and all records sealed. */
    ghost var sent: seq<byte>
    ghost var records: seq<Record>

    /** What is left of the flight. */
    function Flight(): seq<byte>
      requires pendingFlight.Some? ==> flightOffset <= |pendingFlight.value|
      reads this
    {
      if pendingFlight.None? then [] else pendingFlight.value[flightOffset..]
    }

    ghost predicate Valid()
      reads this, buffer, buffer.buf
    {
      && buffer.Valid()
      && 0 < maxSendFragment <= MAX_PLAIN_LENGTH
      && (if pendingFlight.None? then flightOffset == 0 else flightOffset <= |pendingFlight.value|)
      && (wpendPending ==> 0 < wpendRet == wpendTot)
      && |sendAlert| == 2 && earlyDataWritten <= maxEarlyData
      && (!buffer.wrapped ==> InOrder(sent, buffer.Contents(), Flight(), records))
    }

    /** How much of the interrupted write is sealed but not yet reported. */
    function Pending(): nat
      reads this
    {
      InFlight(Interruption())
    }

    /** So much of `input`, and no more, has been sealed since `base` had been. */
    ghost predicate Progress(base: seq<byte>, input: seq<byte>)
      reads this
    {
      Sealed(records, base, input, wnum + Pending())
    }

    constructor (maxSendFragment: nat, partialWrite: bool, movingBuffer: bool)
      requires 0 < maxSendFragment <= MAX_PLAIN_LENGTH
      ensures Valid() && fresh(buffer) && records == [] && sent == [] && wnum == 0 && !wpendPending
      ensures !buffer.cramped && buffer.buf == null && buffer.cap == 0 && pendingFlight.None?
    {
      buffer := new Buffer();
      pendingFlight, flightOffset := None, 0;
      wnum, wpendTot, wpendBuf, wpendType, wpendRet, wpendPending := 0, 0, 0, 0, 0, false;
      writeShutdown, alertDispatch, sendAlert := NoShutdown, false, [0, 0];
      this.maxSendFragment, this.partialWrite, this.movingBuffer := maxSendFragment, partialWrite, movingBuffer;
      sealOverhead, sealPrefix, sent, records := 0, 0, [], [];
      inEarlyData, canEarlyWrite, maxEarlyData, earlyDataWritten, dispatched, refusals := false, false, 0, 0, 0, 0;
    }

    /** Early data is offered with a ticket that allows so much of it. */
    method OfferEarlyData(limit: nat)
      requires Valid()
      modifies this`inEarlyData, this`canEarlyWrite, this`maxEarlyData, this`earlyDataWritten
      ensures Valid() && inEarlyData && canEarlyWrite && maxEarlyData == limit && earlyDataWritten == 0
    {
      inEarlyData, canEarlyWrite, maxEarlyData, earlyDataWritten := true, true, limit, 0;
    }

    /** A change of write keys. */
    method SetWriteState(overhead: nat, prefix: nat)
      requires Valid()
      modifies this`sealOverhead, this`sealPrefix
      ensures Valid() && sealOverhead == overhead && sealPrefix == prefix
    {
      sealOverhead, sealPrefix := overhead, prefix;
    }

    /** What the AEAD makes of a plaintext: any bytes, at most the stated overhead longer; or it fails. */
    predicate Possible(input: seq<byte>, out: Option<seq<byte>>)
      reads this
    {
      out.Some? ==> |out.value| <= |input| + sealOverhead
    }

    method Aead(input: seq<byte>) returns (out: Option<seq<byte>>)
      modifies this`refusals
      ensures Possible(input, out) && refusals == old(refusals) + if out.None? then 1 else 0
    {
      var bytes: seq<byte> := *;
      var works: bool := *;
      out := if works && |bytes| <= |input| + sealOverhead then Some(bytes) else None;
      if out.None? {
        refusals := refusals + 1;
      }
    }

    /** `tls_seal_record`, with the answer of the AEAD. */
    method SealRecord(recordType: nat, input: seq<byte>, maxOut: nat, aead: Option<seq<byte>>)
      returns (out: Option<seq<byte>>)
      requires maxOut >= |input| + sealOverhead && Possible(input, aead)
      modifies this`records
      ensures out == aead
      ensures records == if out.Some? then old(records) + [Record(recordType, input, out.value)] else old(records)
    {
      out := aead;
      if out.Some? {
        records := records + [Record(recordType, input, out.value)];
      }
    }

    /** `add_record_to_flight`. */
    method AddRecordToFlight(recordType: nat, input: seq<byte>) returns (ok: bool, ghost record: Record)
      requires Valid() && flightOffset == 0
      modifies this`refusals, this`pendingFlight, this`records
      ensures Valid() && record.recordType == recordType && record.plaintext == input
      ensures records == old(records) + if ok then [record] else []
      ensures Flight() == old(Flight()) + if ok then record.sealed else []
      ensures refusals == old(refusals) + if ok then 0 else 1
    {
      var aead := Aead(input);
      ok, record := AddSealed(recordType, input, aead);
    }

    /** The same with the answer of the AEAD. */
    method AddSealed(recordType: nat, input: seq<byte>, aead: Option<seq<byte>>)
      returns (ok: bool, ghost record: Record)
      requires Valid() && flightOffset == 0 && Possible(input, aead)
      modifies this`pendingFlight, this`records
      ensures Valid() && ok == aead.Some?
      ensures record == Record(recordType, input, if ok then aead.value else [])
      ensures records == old(records) + if ok then [record] else []
      ensures Flight() == old(Flight()) + if ok then record.sealed else []
    {
      record := Record(recordType, input, []);
      if pendingFlight.None? {
        pendingFlight := Some([]);
        assert Flight() == [];
      }
      ghost var records' := records;
      var out := SealRecord(recordType, input, |input| + sealOverhead, aead);
      ok := out.Some?;
      if !ok {
        return;
      }
      record := Record(recordType, input, out.value);
      if !buffer.wrapped {
        AddedToFlight(sent, buffer.Contents(), Flight(), records', record);
      }
      AppendToFlight(out.value);
    }

    method AppendToFlight(bytes: seq<byte>)
      requires pendingFlight.Some? && flightOffset == 0
      modifies this`pendingFlight
      ensures pendingFlight.Some? && Flight() == old(Flight()) + bytes
    {
      assert pendingFlight.value[0..] == pendingFlight.value;
      pendingFlight := Some(pendingFlight.value + bytes);
    }

    /** `ssl3_add_message`. */
    method AddMessage(message: seq<byte>) returns (ok: bool, ghost added: seq<Record>)
      requires Valid() && flightOffset == 0
      modifies this`refusals, this`pendingFlight, this`records
      ensures Valid() && records == old(records) + added
      ensures Flight() == old(Flight()) + Flat(added)
      ensures if ok then added != [] && Chunked(added, RT_HANDSHAKE, message, [], maxSendFragment)
              else exists rest :: Chunked(added, RT_HANDSHAKE, message, rest, maxSendFragment)
      ensures old(refusals) <= refusals && (!ok ==> refusals > old(refusals))
    {
      added := [];
      var rest, first := message, true;
      while first || rest != []
        invariant Valid() && flightOffset == 0 && records == old(records) + added
                  && Flight() == old(Flight()) + Flat(added)
        invariant refusals == old(refusals)
        invariant Chunked(added, RT_HANDSHAKE, message, rest, maxSendFragment) && (first <==> added == [])
        decreases |rest|, first
      {
        var chunk := rest[..if |rest| < maxSendFragment then |rest| else maxSendFragment];
        ghost var record;
        ok, record := AddRecordToFlight(RT_HANDSHAKE, chunk);
        if !ok {
          assert records == old(records) + added && Flight() == old(Flight()) + Flat(added);
          return;
        }
        first := false;
        OneMore(added, record);
        NextChunk(added, record, message, rest, maxSendFragment);
        assert old(records) + added + [record] == old(records) + (added + [record]);
        assert old(Flight()) + Flat(added) + record.sealed == old(Flight()) + (Flat(added) + record.sealed);
        added := added + [record];
        rest := rest[|chunk|..];
      }
      ok := true;
    }

    /** `ssl3_add_change_cipher_spec`. */
    method AddChangeCipherSpec() returns (ok: bool, ghost record: Record)
      requires Valid() && flightOffset == 0
      modifies this`refusals, this`pendingFlight, this`records
      ensures Valid() && record.recordType == RT_CHANGE_CIPHER_SPEC && record.plaintext == [1]
      ensures records == old(records) + if ok then [record] else []
      ensures Flight() == old(Flight()) + if ok then record.sealed else []
      ensures old(refusals) <= refusals && (!ok ==> refusals > old(refusals))
    {
      ok, record := AddRecordToFlight(RT_CHANGE_CIPHER_SPEC, [1]);
    }

    /** `ssl3_add_alert`. */
    method AddAlert(level: byte, desc: byte) returns (ok: bool, ghost record: Record)
      requires Valid() && flightOffset == 0
      modifies this`refusals, this`pendingFlight, this`records
      ensures Valid() && record.recordType == RT_ALERT && record.plaintext == [level, desc]
      ensures records == old(records) + if ok then [record] else []
      ensures Flight() == old(Flight()) + if ok then record.sealed else []
      ensures old(refusals) <= refusals && (!ok ==> refusals > old(refusals))
    {
      ok, record := AddRecordToFlight(RT_ALERT, [level, desc]);
    }

    /** `BIO_write`: takes any part of a non-empty offer from its start, or refuses. */
    method Transport(offered: nat) returns (ret: int)
      modifies this`refusals
      ensures ret <= offered && refusals == old(refusals) + if ret <= 0 then 1 else 0
    {
      ret := *;
      if ret > offered {
        ret := offered;
      }
      if ret <= 0 {
        refusals := refusals + 1;
      }
    }

    method Offer(bytes: seq<byte>, taken: int) returns (ret: int)
      requires taken <= |bytes|
      modifies this`sent
      ensures ret == taken && sent == if ret > 0 then old(sent) + bytes[..ret] else old(sent)
    {
      ret := taken;
      if ret > 0 {
        sent := sent + bytes[..ret];
      }
    }

    /** One turn of `tls_write_buffer_flush`. */
    method OfferBuffer() returns (ret: int)
      requires Valid() && buffer.size > 0
      modifies this`refusals, this`sent, buffer
      ensures Valid() && buffer.cramped == old(buffer.cramped) && buffer.buf == old(buffer.buf)
      ensures old(sent) <= sent && buffer.size == old(buffer.size) - if ret > 0 then ret else 0
      ensures old(refusals) <= refusals && (ret <= 0 ==> refusals > old(refusals))
    {
      var taken := Transport(buffer.size);
      ret := OfferTaken(taken);
    }

    /** The same with the answer of the transport. */
    method OfferTaken(taken: int) returns (ret: int)
      requires Valid() && buffer.size > 0 && taken <= buffer.size
      modifies this`sent, buffer
      ensures Valid() && ret == taken && buffer.cramped == old(buffer.cramped) && buffer.buf == old(buffer.buf)
      ensures sent == if ret > 0 then old(sent) + old(buffer.Contents())[..ret] else old(sent)
      ensures buffer.size == old(buffer.size) - if ret > 0 then ret else 0
      ensures buffer.wrapped == (old(buffer.wrapped) || (ret > 0 && old(buffer.Wraps(ret))))
      ensures ret > 0 ==> buffer.Contents() == old(buffer.Rest(ret))
    {
      var bytes := buffer.Data();
      if taken <= 0 {
        return taken;
      }
      ghost var before, flight := sent, Flight();
      sent := sent + bytes[..taken];
      buffer.Consume(taken);
      if !buffer.wrapped {
        TakenFromBuffer(before, bytes, flight, records, taken);
      }
      return taken;
    }

    /** `tls_write_buffer_flush`. */
    method FlushBuffer() returns (ret: int)
      requires Valid()
      modifies this`refusals, this`sent, buffer
      ensures Valid() && buffer.cramped == old(buffer.cramped) && old(sent) <= sent
      ensures buffer.buf == old(buffer.buf) || buffer.buf == null
      ensures ret > 0 ==> buffer.Contents() == []
      ensures old(refusals) <= refusals && (ret <= 0 ==> refusals > old(refusals))
    {
      while buffer.size > 0
        invariant Valid() && buffer.cramped == old(buffer.cramped) && old(sent) <= sent && buffer.buf == old(buffer.buf)
        invariant old(refusals) <= refusals
        decreases buffer.size
      {
        ret := OfferBuffer();
        if ret <= 0 {
          return;
        }
      }
      assert buffer.Contents() == [];
      buffer.Clear();
      ret := 1;
    }

    /** One turn of the loop of `ssl3_flush_flight`. */
    method OfferFlight() returns (ret: int)
      requires Valid() && buffer.Contents() == [] && pendingFlight.Some?
      modifies this`refusals, this`sent, this`flightOffset
      ensures Valid() && old(sent) <= sent && flightOffset == old(flightOffset) + if ret > 0 then ret else 0
      ensures old(refusals) <= refusals && (ret <= 0 ==> refusals > old(refusals))
    {
      ghost var before := Flight();
      var taken := Transport(|pendingFlight.value| - flightOffset);
      if taken > 0 && !buffer.wrapped {
        TakenFromFlight(sent, before, records, taken);
      }
      ret := Offer(pendingFlight.value[flightOffset..], taken);
      if ret > 0 {
        flightOffset := flightOffset + ret;
        assert Flight() == before[ret..];
      }
    }

    /** The loop of `ssl3_flush_flight`. */
    method OfferWholeFlight() returns (ret: int)
      requires Valid() && buffer.Contents() == [] && pendingFlight.Some?
      modifies this`refusals, this`sent, this`flightOffset
      ensures Valid() && old(sent) <= sent
      ensures ret > 0 ==> flightOffset == |pendingFlight.value|
      ensures old(refusals) <= refusals && (ret <= 0 ==> refusals > old(refusals))
    {
      while flightOffset < |pendingFlight.value|
        invariant Valid() && old(sent) <= sent && old(refusals) <= refusals
        decreases |pendingFlight.value| - flightOffset
      {
        ret := OfferFlight();
        if ret <= 0 {
          return;
        }
      }
      ret := 1;
    }

    /** `ssl3_flush_flight`. When it is through with a flight, the transport has all there is. */
    method FlushFlight() returns (ret: int)
      requires Valid()
      modifies this`refusals, this`sent, this`pendingFlight, this`flightOffset, buffer
      ensures Valid() && buffer.cramped == old(buffer.cramped) && old(sent) <= sent
      ensures buffer.buf == old(buffer.buf) || buffer.buf == null
      ensures ret > 0 ==> pendingFlight.None?
      ensures ret > 0 && old(pendingFlight.Some?) && !buffer.wrapped ==> sent == Flat(records)
      ensures old(refusals) <= refusals
      ensures var closed := old(pendingFlight).Some?
              && (!writeShutdown.NoShutdown? || |old(pendingFlight).value| > INT_MAX);
              if closed then ret == -1 && sent == old(sent) && pendingFlight == old(pendingFlight)
              else ret <= 0 ==> refusals > old(refusals)
    {
      if pendingFlight.None? {
        return 1;
      }
      if !writeShutdown.NoShutdown? || |pendingFlight.value| > INT_MAX {
        return -1;
      }
      if buffer.size > 0 {
        ret := FlushBuffer();
        if ret <= 0 {
          return;
        }
      }
      assert buffer.Contents() == [];
      ret := OfferWholeFlight();
      if ret <= 0 {
        return;
      }
      var flushed: bool := *;
      if !flushed {
        refusals := refusals + 1;
        return -1;
      }
      DropFlight();
      return 1;
    }

    /** The flight that has been written is dropped. */
    method DropFlight()
      requires Valid() && buffer.Contents() == [] && pendingFlight.Some? && flightOffset == |pendingFlight.value|
      modifies this`pendingFlight, this`flightOffset
      ensures Valid() && pendingFlight.None? && (!buffer.wrapped ==> sent == Flat(records))
    {
      assert Flight() == [];
      if !buffer.wrapped {
        AllTaken(sent, records);
      }
      pendingFlight, flightOffset := None, 0;
      assert Flight() == [];
    }

    /** The interrupted write is tried again. */
    predicate Repeats(recordType: nat, address: nat, len: nat)
      reads this
    {
      wpendTot <= len && (movingBuffer || wpendBuf == address) && wpendType == recordType
    }

    /** `ssl3_write_pending`. */
    method WritePending(recordType: nat, address: nat, len: nat) returns (ret: int)
      requires Valid() && wpendPending
      modifies this`refusals, this`sent, this`wpendPending, buffer
      ensures Valid() && buffer.cramped == old(buffer.cramped) && old(sent) <= sent
      ensures buffer.buf == old(buffer.buf) || buffer.buf == null
      ensures ret > 0 ==> ret == wpendRet && !wpendPending && wpendType == recordType && wpendRet <= len
      ensures ret > 0 ==> buffer.Contents() == []
      ensures ret <= 0 ==> wpendPending == old(wpendPending)
      ensures old(refusals) <= refusals
      ensures ret <= 0 ==> refusals > old(refusals) || !old(Repeats(recordType, address, len))
    {
      if wpendTot > len || (!movingBuffer && wpendBuf != address) || wpendType != recordType {
        return -1;
      }
      ret := FlushBuffer();
      if ret <= 0 {
        return;
      }
      wpendPending := false;
      return wpendRet;
    }

    function Interruption(): Interrupted
      reads this
    {
      Interrupted(wpendPending, wpendType, wpendRet)
    }

    /** What is left of the flight goes in front of the next record. */
    method MoveFlight()
      requires Valid() && |Flight()| <= buffer.cap - buffer.size
      modifies this`pendingFlight, this`flightOffset, buffer`size, buffer.buf
      ensures Valid() && pendingFlight.None? && buffer.Contents() == old(buffer.Contents()) + old(Flight())
      ensures buffer.Front() == old(buffer.Front())
    {
      ghost var contents, flight := buffer.Contents(), Flight();
      if pendingFlight.Some? {
        if !buffer.wrapped {
          MovedToBuffer(sent, contents, flight, records);
        }
        buffer.Append(pendingFlight.value[flightOffset..]);
        pendingFlight, flightOffset := None, 0;
        assert buffer.Contents() == contents + flight && Flight() == [];
      } else {
        assert contents + flight == contents;
      }
    }

    /** The record is sealed into the buffer. */
    method SealIntoBuffer(recordType: nat, input: seq<byte>, aead: Option<seq<byte>>)
      returns (ok: bool, ghost record: Record)
      requires Valid() && pendingFlight.None? && |input| + sealOverhead <= buffer.cap - buffer.size
               && Possible(input, aead)
      modifies this`records, buffer`size, buffer.buf
      ensures Valid() && ok == aead.Some?
      ensures record == Record(recordType, input, if ok then aead.value else [])
      ensures records == old(records) + if ok then [record] else []
      ensures buffer.Contents() == old(buffer.Contents()) + record.sealed
      ensures buffer.Front() == old(buffer.Front())
    {
      ghost var records', contents := records, buffer.Contents();
      var out := SealRecord(recordType, input, buffer.cap - buffer.size, aead);
      ok := out.Some?;
      var bytes := if ok then out.value else [];
      record := Record(recordType, input, bytes);
      if ok {
        if !buffer.wrapped {
          AddedToBuffer(sent, contents, records', record);
        }
        buffer.Append(bytes);
        assert buffer.Contents() == contents + bytes && Flight() == [];
      } else {
        assert contents + [] == contents && records' + [] == records';
      }
    }

    /** The flight and then the record fill the empty buffer. */
    method FillBuffer(recordType: nat, input: seq<byte>, aead: Option<seq<byte>>)
      returns (ok: bool, ghost record: Record)
      requires Valid() && buffer.size == 0 && MaxOut(|input|) <= buffer.cap && Possible(input, aead)
      modifies this`records, this`pendingFlight, this`flightOffset, buffer`size, buffer.buf
      ensures Valid() && ok == aead.Some?
      ensures record == Record(recordType, input, if ok then aead.value else [])
      ensures records == old(records) + if ok then [record] else []
      ensures pendingFlight.None? && buffer.Contents() == old(Flight()) + record.sealed
              && buffer.Front() == old(buffer.Front())
    {
      assert buffer.Contents() == [];
      MoveFlight();
      ok, record := SealIntoBuffer(recordType, input, aead);
    }

    /** How large the buffer has to be for one more record. */
    function MaxOut(len: nat): nat
      requires pendingFlight.Some? ==> flightOffset <= |pendingFlight.value|
      reads this
    {
      len + sealOverhead + |Flight()|
    }

    /** The part of `do_ssl3_write` that makes a new record. */
    method QueueRecord(recordType: nat, input: seq<byte>) returns (ok: bool, ghost record: Record)
      requires Valid() && buffer.size == 0
      modifies this`refusals, this`records, this`pendingFlight, this`flightOffset, buffer, buffer.buf
      ensures Valid() && (buffer.buf == null || buffer.buf == old(buffer.buf) || fresh(buffer.buf))
      ensures record.recordType == recordType && record.plaintext == input
      ensures records == old(records) + if ok then [record] else []
      ensures buffer.cramped ==> old(buffer.cramped) || old(MaxOut(|input|)) + ALIGN_PAYLOAD - 1 > 0x1_0000
      ensures old(refusals) <= refusals && (ok ==> pendingFlight.None?)
      ensures !ok ==> refusals > old(refusals) || old(MaxOut(|input|)) > 0xffff
    {
      var aead := Aead(input);
      var gotMemory: bool, place: nat, garbage: byte := *, *, *;
      if !gotMemory {
        refusals := refusals + 1;
      }
      ok, record := QueueSealed(recordType, input, aead, gotMemory, place, garbage);
    }

    /** The same with the answer of the AEAD, and the memory that it gets, if any. */
    method QueueSealed(recordType: nat, input: seq<byte>, aead: Option<seq<byte>>, gotMemory: bool, place: nat,
        garbage: byte)
      returns (ok: bool, ghost record: Record)
      requires Valid() && buffer.size == 0 && Possible(input, aead)
      modifies this`records, this`pendingFlight, this`flightOffset, buffer, buffer.buf
      ensures Valid() && (buffer.buf == null || buffer.buf == old(buffer.buf) || fresh(buffer.buf))
      ensures record.recordType == recordType && record.plaintext == input
      ensures records == old(records) + if ok then [record] else []
      ensures buffer.cramped ==> old(buffer.cramped) || old(MaxOut(|input|)) + ALIGN_PAYLOAD - 1 > 0x1_0000
      ensures ok == (old(MaxOut(|input|)) <= 0xffff && (old(buffer.cap) >= old(MaxOut(|input|)) || gotMemory)
              && aead.Some?)
      ensures ok ==> pendingFlight.None? && buffer.Contents() == old(Flight()) + aead.value
      ensures buffer.wrapped == old(buffer.wrapped)
      ensures ok && old(buffer.cap) < old(MaxOut(|input|)) ==>
                && buffer.offset == (0 - old(|Flight()|) - sealPrefix - place) % ALIGN_PAYLOAD
                && buffer.Front() == seq(buffer.offset, _ => garbage)
    {
      record := Record(recordType, input, []);
      ok := buffer.EnsureCap(|Flight()| + sealPrefix, MaxOut(|input|), gotMemory, place, garbage);
      if ok {
        ok, record := FillBuffer(recordType, input, aead);
      }
    }

    /** Why a write cannot be done, whatever the transport does: another one is interrupted, or there is nothing to
        be written, or something in the buffer. */
    predicate CannotWrite(recordType: nat, len: nat, address: nat)
      reads this, buffer
    {
      if wpendPending then !Repeats(recordType, address, len)
      else len == 0 || len > MAX_PLAIN_LENGTH || buffer.size > 0
    }

    /** The largest record does not fit into a buffer behind what is left of the flight. */
    predicate NoRoom()
      requires pendingFlight.Some? ==> flightOffset <= |pendingFlight.value|
      reads this
    {
      MaxOut(MAX_PLAIN_LENGTH) > 0xffff
    }

    /** `do_ssl3_write`. */
    method DoWrite(recordType: nat, input: seq<byte>, address: nat)
      returns (ret: int, ghost added: bool, ghost record: Record)
      requires Valid()
      modifies this`refusals, this`sent, this`records, this`pendingFlight, this`flightOffset
      modifies this`wpendPending, this`wpendType, this`wpendRet, this`wpendTot, this`wpendBuf, buffer, buffer.buf
      ensures Valid() && old(sent) <= sent && (buffer.buf == null || buffer.buf == old(buffer.buf) || fresh(buffer.buf))
      ensures WriteEnds(old(Interruption()), Interruption(), ret, recordType, |input|, added)
      ensures record.recordType == recordType && record.plaintext == input && (added ==> input != [])
      ensures records == old(records) + if added then [record] else []
      ensures ret > 0 ==> buffer.Contents() == []
      ensures buffer.cramped ==> old(buffer.cramped) || old(MaxOut(|input|)) + ALIGN_PAYLOAD - 1 > 0x1_0000
      ensures old(refusals) <= refusals && (ret > 0 && NoRoom() ==> old(NoRoom()))
      ensures ret <= 0 ==> refusals > old(refusals) || old(NoRoom() || CannotWrite(recordType, |input|, address))
    {
      if wpendPending {
        added, record := false, Record(recordType, input, []);
        ret := WritePending(recordType, address, |input|);
      } else {
        ret, added, record := WriteNew(recordType, input, address);
      }
    }

    /** The write is under way, until it is repeated and complete. */
    method Memorize(recordType: nat, len: nat, address: nat)
      requires Valid() && len > 0
      modifies this`wpendPending, this`wpendType, this`wpendRet, this`wpendTot, this`wpendBuf
      ensures Valid() && Interruption() == Interrupted(true, recordType, len) && wpendTot == len && wpendBuf == address
    {
      wpendTot, wpendBuf, wpendType, wpendRet, wpendPending := len, address, recordType, len, true;
    }

    /** `do_ssl3_write` when no write is pending: a new record, which is then written. */
    method WriteNew(recordType: nat, input: seq<byte>, address: nat)
      returns (ret: int, ghost added: bool, ghost record: Record)
      requires Valid() && !wpendPending
      modifies this`refusals, this`sent, this`records, this`pendingFlight, this`flightOffset
      modifies this`wpendPending, this`wpendType, this`wpendRet, this`wpendTot, this`wpendBuf, buffer, buffer.buf
      ensures Valid() && old(sent) <= sent && (buffer.buf == null || buffer.buf == old(buffer.buf) || fresh(buffer.buf))
      ensures WriteEnds(old(Interruption()), Interruption(), ret, recordType, |input|, added)
      ensures record.recordType == recordType && record.plaintext == input && (added ==> input != [])
      ensures records == old(records) + if added then [record] else []
      ensures ret > 0 ==> buffer.Contents() == []
      ensures buffer.cramped ==> old(buffer.cramped) || old(MaxOut(|input|)) + ALIGN_PAYLOAD - 1 > 0x1_0000
      ensures old(refusals) <= refusals && (ret > 0 && NoRoom() ==> old(NoRoom()))
      ensures ret <= 0 ==> refusals > old(refusals) || old(NoRoom() || CannotWrite(recordType, |input|, address))
    {
      added, record := false, Record(recordType, input, []);
      if |input| > MAX_PLAIN_LENGTH || buffer.size > 0 {
        return -1, added, record;
      }
      if input == [] {
        return 0, added, record;
      }
      var ok;
      ok, record := QueueRecord(recordType, input);
      if !ok {
        return -1, added, record;
      }
      added := true;
      Memorize(recordType, |input|, address);
      ret := WritePending(recordType, address, |input|);
    }

    /** One record of `ssl3_write_app_data`: what comes at `tot` in the input. */
    method WriteChunk(input: seq<byte>, address: nat, tot: nat, nw: nat, ghost early: bool, ghost base: seq<byte>,
        ghost before: seq<Record>, ghost settled: bool)
      returns (ret: int)
      requires Valid() && tot + nw <= |input|
      requires nw <= maxSendFragment && (early || nw == maxSendFragment || tot + nw == |input|)
      requires DataOn(before, records, input, maxSendFragment, early, base, settled, tot + Pending())
      modifies this`refusals, this`sent, this`records, this`pendingFlight, this`flightOffset
      modifies this`wpendPending, this`wpendType, this`wpendRet, this`wpendTot, this`wpendBuf, buffer, buffer.buf
      ensures Valid() && (buffer.buf == null || buffer.buf == old(buffer.buf) || fresh(buffer.buf))
      ensures ret <= nw && (ret > 0 ==> Pending() == 0 && buffer.size == 0)
      ensures DataOn(before, records, input, maxSendFragment, early, base, settled,
                     tot + (if ret > 0 then ret else 0) + Pending())
      ensures old(refusals) <= refusals && (ret > 0 ==> !wpendPending && (NoRoom() ==> old(NoRoom())))
      ensures ret <= 0 ==>
                refusals > old(refusals) || old(NoRoom() || CannotWrite(RT_APPLICATION_DATA, nw, address + tot))
    {
      ghost var records', was := records, Interruption();
      ghost var added, record;
      ret, added, record := DoWrite(RT_APPLICATION_DATA, input[tot..tot + nw], address + tot);
      DataGoesOn(before, records', records, record, added, was, Interruption(), ret, input, maxSendFragment, early,
        base,
                 settled, tot, nw);
    }

    /** The most that one record may hold: early data must not exceed what the ticket allows. */
    function MaxRecord(early: bool): (max: nat)
      requires earlyDataWritten <= maxEarlyData
      reads this
      ensures max <= maxSendFragment && (early ==> max <= maxEarlyData - earlyDataWritten)
    {
      if early && maxSendFragment > maxEarlyData - earlyDataWritten then maxEarlyData - earlyDataWritten
      else maxSendFragment
    }

    /** The length of the record that comes next, when `n` bytes are left. */
    function RecordLength(early: bool, n: nat): nat
      requires earlyDataWritten <= maxEarlyData
      reads this
    {
      if n > MaxRecord(early) then MaxRecord(early) else n
    }

    /** There is a reason if the record that comes at `tot` cannot be written. */
    predicate HasReason(input: seq<byte>, address: nat, tot: nat, early: bool, hopeless: bool)
      requires tot <= |input| && earlyDataWritten <= maxEarlyData
      requires pendingFlight.Some? ==> flightOffset <= |pendingFlight.value|
      reads this, buffer
    {
      && (NoRoom() ==> hopeless)
      && (MaxRecord(early) == 0 || tot == |input|
          || (CannotWrite(RT_APPLICATION_DATA, RecordLength(early, |input| - tot), address + tot) ==> hopeless))
    }

    /** One turn of `ssl3_write_app_data`: a record of what comes at `tot`, unless no more early data is
        allowed. */
    method WriteNext(input: seq<byte>, address: nat, tot: nat, early: bool, ghost base: seq<byte>,
        ghost before: seq<Record>, ghost settled: bool, ghost hopeless: bool)
      returns (ret: int, needsHandshake: bool)
      requires Valid() && tot <= |input| && HasReason(input, address, tot, early, hopeless)
      requires DataOn(before, records, input, maxSendFragment, early, base, settled, tot + Pending())
      modifies this`refusals, this`sent, this`records, this`pendingFlight, this`flightOffset, this`canEarlyWrite
      modifies this`earlyDataWritten
      modifies this`wpendPending, this`wpendType, this`wpendRet, this`wpendTot, this`wpendBuf, buffer, buffer.buf
      ensures Valid() && (buffer.buf == null || buffer.buf == old(buffer.buf) || fresh(buffer.buf))
      ensures ret <= |input| - tot && (ret > 0 ==> Pending() == 0 && buffer.size == 0)
      ensures ret > 0 ==> HasReason(input, address, tot + ret, early, hopeless)
      ensures DataOn(before, records, input, maxSendFragment, early, base, settled,
                     tot + (if ret > 0 then ret else 0) + Pending())
      ensures earlyDataWritten == old(earlyDataWritten) + if early && ret > 0 then ret else 0
      ensures needsHandshake <==> old(MaxRecord(early)) == 0
      ensures needsHandshake ==> early && ret <= 0 && !canEarlyWrite && earlyDataWritten == maxEarlyData
      ensures !needsHandshake ==> canEarlyWrite == old(canEarlyWrite)
      ensures old(refusals) <= refusals
      ensures ret <= 0 && !needsHandshake ==> refusals > old(refusals) || hopeless || tot == |input|
    {
      var max, n := MaxRecord(early), |input| - tot;
      if max == 0 {
        canEarlyWrite := false;
        return -1, true;
      }
      ret := WriteChunk(input, address, tot, RecordLength(early, n), early, base, before, settled);
      if early && ret > 0 {
        CountEarly(ret);
      }
      needsHandshake := false;
    }

    /** So much more early data has been written. */
    method CountEarly(n: nat)
      requires Valid() && earlyDataWritten + n <= maxEarlyData
      modifies this`earlyDataWritten
      ensures Valid() && earlyDataWritten == old(earlyDataWritten) + n
    {
      earlyDataWritten := earlyDataWritten + n;
    }

    /** What has been written is kept for the next call. */
    method KeepCount(tot: nat)
      requires Valid()
      modifies this`wnum
      ensures Valid() && wnum == tot
    {
      wnum := tot;
    }

    /** The loop of `ssl3_write_app_data`, from `from` on. */
    method WriteLoop(input: seq<byte>, address: nat, from: nat, early: bool, ghost base: seq<byte>,
        ghost before: seq<Record>, ghost settled: bool, ghost hopeless: bool)
      returns (ret: int, needsHandshake: bool, tot: nat)
      requires Valid() && from <= |input|
      requires HasReason(input, address, from, early, hopeless) && (from == |input| ==> hopeless)
      requires DataOn(before, records, input, maxSendFragment, early, base, settled, from + Pending())
      modifies this`refusals, this`sent, this`records, this`pendingFlight, this`flightOffset, this`canEarlyWrite
      modifies this`earlyDataWritten
      modifies this`wpendPending, this`wpendType, this`wpendRet, this`wpendTot, this`wpendBuf, buffer, buffer.buf
      ensures Valid() && (buffer.buf == null || buffer.buf == old(buffer.buf) || fresh(buffer.buf))
      ensures ret > 0 ==> ret == tot && (!partialWrite ==> ret == |input|) && Pending() == 0
      ensures from <= tot <= |input|
      ensures DataOn(before, records, input, maxSendFragment, early, base, settled,
                     tot + Pending())
      ensures ret > 0 ==> buffer.size == 0
      ensures earlyDataWritten == old(earlyDataWritten) + if early then tot - from else 0
      ensures needsHandshake ==> early && ret <= 0 && !canEarlyWrite && earlyDataWritten == maxEarlyData
      ensures !needsHandshake ==> canEarlyWrite == old(canEarlyWrite)
      ensures old(refusals) <= refusals
      ensures ret <= 0 && !needsHandshake ==> refusals > old(refusals) || hopeless
    {
      tot := from;
      while true
        invariant Valid() && (buffer.buf == null || buffer.buf == old(buffer.buf) || fresh(buffer.buf))
        invariant from <= tot <= |input| && (tot == |input| ==> hopeless)
        invariant HasReason(input, address, tot, early, hopeless)
        invariant DataOn(before, records, input, maxSendFragment, early, base, settled, tot + Pending())
        invariant earlyDataWritten == old(earlyDataWritten) + if early then tot - from else 0
        invariant canEarlyWrite == old(canEarlyWrite) && old(refusals) <= refusals
        decreases |input| - tot
      {
        ret, needsHandshake := WriteNext(input, address, tot, early, base, before, settled, hopeless);
        if ret <= 0 {
          return;
        }
        tot := tot + ret;
        if tot == |input| || partialWrite {
          return tot, false, tot;
        }
      }
    }

    /** The loop, after which the count is kept for the next call unless it goes to the caller. */
    method WriteFrom(input: seq<byte>, address: nat, from: nat, early: bool, ghost base: seq<byte>,
        ghost before: seq<Record>, ghost settled: bool, ghost hopeless: bool)
      returns (ret: int, needsHandshake: bool)
      requires Valid() && from <= |input| && wnum == 0
      requires HasReason(input, address, from, early, hopeless) && (from == |input| ==> hopeless)
      requires DataOn(before, records, input, maxSendFragment, early, base, settled, from + Pending())
      modifies this`refusals, this`sent, this`records, this`pendingFlight, this`flightOffset, this`wnum
      modifies this`canEarlyWrite, this`earlyDataWritten
      modifies this`wpendPending, this`wpendType, this`wpendRet, this`wpendTot, this`wpendBuf, buffer, buffer.buf
      ensures Valid() && (buffer.buf == null || buffer.buf == old(buffer.buf) || fresh(buffer.buf))
      ensures ret > 0 ==> ret <= |input| && (!partialWrite ==> ret == |input|) && wnum == 0 && Pending() == 0
      ensures DataOn(before, records, input, maxSendFragment, early, base, settled,
                     if ret > 0 then ret else wnum + Pending())
      ensures ret > 0 ==> buffer.size == 0
      ensures earlyDataWritten == old(earlyDataWritten) + if early then (if ret > 0 then ret else wnum) - from else 0
      ensures needsHandshake ==> early && ret <= 0 && !canEarlyWrite && earlyDataWritten == maxEarlyData
      ensures !needsHandshake ==> canEarlyWrite == old(canEarlyWrite)
      ensures old(refusals) <= refusals
      ensures ret <= 0 && !needsHandshake ==> refusals > old(refusals) || hopeless
    {
      var tot;
      ret, needsHandshake, tot := WriteLoop(input, address, from, early, base, before, settled, hopeless);
      if ret <= 0 {
        KeepCount(tot);
      }
    }

    /** A write of early data: a client that still may, when the call is made. */
    predicate IsEarly()
      reads this
    {
      inEarlyData && canEarlyWrite
    }

    /** `ssl3_write_app_data`. If so far exactly the reported part of `input` has been sealed, and what an
        interrupted write will report, then that stays so; and the count returned has been sealed, each
        byte once. What is counted as early data is what is reported of it, and never more than allowed;
        when no more is, the handshake has to go on. */
    method WriteAppData(input: seq<byte>, address: nat, len: int, ghost base: seq<byte>)
      returns (ret: int, needsHandshake: bool)
      requires Valid() && (len >= 0 ==> |input| == len)
      modifies this`refusals, this`sent, this`records, this`pendingFlight, this`flightOffset, this`wnum
      modifies this`canEarlyWrite
      modifies this`earlyDataWritten
      modifies this`wpendPending, this`wpendType, this`wpendRet, this`wpendTot, this`wpendBuf, buffer, buffer.buf
      ensures InChunks(old(records), records, input, maxSendFragment, old(IsEarly()))
      ensures Valid() && (buffer.buf == null || buffer.buf == old(buffer.buf) || fresh(buffer.buf))
      ensures len >= 0 && old(Progress(base, input)) ==>
                if ret <= 0 then Progress(base, input)
                else
                  && ret <= len && (!partialWrite ==> ret == len) && wnum == 0 && Pending() == 0
                  && Sealed(records, base, input, ret)
      ensures ret > 0 ==> buffer.size == 0
      ensures old(IsEarly()) && old(wnum) <= len && old(writeShutdown).NoShutdown? ==>
                earlyDataWritten == old(earlyDataWritten) + (if ret > 0 then ret else wnum) - old(wnum)
      ensures !old(IsEarly()) ==> earlyDataWritten == old(earlyDataWritten) && !needsHandshake
      ensures needsHandshake ==> ret <= 0 && !canEarlyWrite && earlyDataWritten == maxEarlyData
      ensures !old(writeShutdown).NoShutdown? ==>
                ret == -1 && !needsHandshake && unchanged(this) && unchanged(buffer)
                && buffer.Contents() == old(buffer.Contents())
      ensures old(refusals) <= refusals
      ensures ret <= 0 ==>
                || !old(writeShutdown).NoShutdown? || len <= old(wnum) || needsHandshake || refusals > old(refusals)
                || old(NoRoom())
                || old(CannotWrite(RT_APPLICATION_DATA, RecordLength(IsEarly(), len - wnum), address + wnum))
    {
      needsHandshake := false;
      if !writeShutdown.NoShutdown? {
        return -1, false;
      }
      var tot := wnum;
      KeepCount(0);
      if len < 0 || len < tot {
        return -1, false;
      }
      ghost var settled := Sealed(records, base, input, tot + Pending());
      ghost var hopeless := NoRoom()
        || CannotWrite(RT_APPLICATION_DATA, RecordLength(IsEarly(), len - tot), address + tot);
      ret, needsHandshake := WriteFrom(input, address, tot, IsEarly(), base, records, settled, hopeless || len == tot);
    }

    /** `ssl3_dispatch_alert`. */
    method DispatchAlert() returns (ret: int)
      requires Valid()
      modifies this`refusals, this`sent, this`records, this`pendingFlight, this`flightOffset
      modifies this`alertDispatch, this`dispatched
      modifies this`wpendPending, this`wpendType, this`wpendRet, this`wpendTot, this`wpendBuf, buffer, buffer.buf
      ensures Valid() && (buffer.buf == null || buffer.buf == old(buffer.buf) || fresh(buffer.buf))
      ensures Plaintext(records, RT_APPLICATION_DATA) == old(Plaintext(records, RT_APPLICATION_DATA))
              && Pending() == old(Pending())
      ensures ret > 0 ==> !alertDispatch && buffer.size == 0
      ensures records == old(records) || IsOneMore(old(records), records, RT_ALERT, sendAlert)
      ensures ret > 0 && !old(wpendPending) ==> records != old(records)
      ensures ret <= 0 ==> alertDispatch == old(alertDispatch)
      ensures dispatched == old(dispatched) + 1
      ensures old(refusals) <= refusals
      ensures ret <= 0 ==> refusals > old(refusals) || old(NoRoom() || CannotWrite(RT_ALERT, 2, 0))
    {
      dispatched := dispatched + 1;
      ghost var added, record;
      ghost var records', was := records, Interruption();
      ret, added, record := DoWrite(RT_ALERT, sendAlert, 0);
      AlertEnds(records', records, record, added, was, Interruption(), ret);
      if ret > 0 {
        alertDispatch := false;
        ret := 1;
      }
    }

    /** `ssl_send_alert`. */
    method SendAlert(level: byte, desc: byte) returns (ret: int)
      requires Valid()
      requires if desc == AD_CLOSE_NOTIFY then level == AL_WARNING else level == AL_FATAL
      modifies this`refusals, this`sent, this`records, this`pendingFlight, this`flightOffset
      modifies this`alertDispatch, this`dispatched
      modifies this`sendAlert, this`writeShutdown
      modifies this`wpendPending, this`wpendType, this`wpendRet, this`wpendTot, this`wpendBuf, buffer, buffer.buf
      ensures Valid() && (buffer.buf == null || buffer.buf == old(buffer.buf) || fresh(buffer.buf))
      ensures Plaintext(records, RT_APPLICATION_DATA) == old(Plaintext(records, RT_APPLICATION_DATA))
              && Pending() == old(Pending())
      ensures !writeShutdown.NoShutdown?
              && (!old(writeShutdown).NoShutdown? ==> ret == -1 && writeShutdown == old(writeShutdown))
      ensures old(writeShutdown).NoShutdown? ==> sendAlert == [level, desc] && (ret <= 0 ==> alertDispatch)
      ensures old(writeShutdown).NoShutdown? ==>
                writeShutdown == if desc == AD_CLOSE_NOTIFY then ClosedNotify else ClosedError
      ensures dispatched == old(dispatched) + if old(writeShutdown).NoShutdown? && old(buffer.size) == 0 then 1 else 0
      ensures dispatched == old(dispatched) ==> ret == -1 && records == old(records) && sent == old(sent)
      ensures records == old(records) || IsOneMore(old(records), records, RT_ALERT, [level, desc])
      ensures ret > 0 ==> !alertDispatch && buffer.size == 0 && (!old(wpendPending) ==> records != old(records))
      ensures old(refusals) <= refusals
      ensures ret <= 0 && dispatched > old(dispatched) ==>
                refusals > old(refusals) || old(NoRoom() || CannotWrite(RT_ALERT, 2, 0))
    {
      if !writeShutdown.NoShutdown? {
        return -1;
      }
      writeShutdown := if level == AL_WARNING && desc == AD_CLOSE_NOTIFY then ClosedNotify else ClosedError;
      alertDispatch, sendAlert := true, [level, desc];
      if buffer.size == 0 {
        ret := DispatchAlert();
      } else {
        ret := -1;
      }
    }

    /** Anything else that may come between two attempts to write application data, one event. */
    method Interlude()
      requires Valid()
      modifies this`refusals, this`sent, this`records, this`pendingFlight, this`flightOffset
      modifies this`alertDispatch, this`dispatched
      modifies this`sendAlert, this`writeShutdown
      modifies this`wpendPending, this`wpendType, this`wpendRet, this`wpendTot, this`wpendBuf, buffer, buffer.buf
      modifies this`sealOverhead, this`sealPrefix
      ensures Valid() && (buffer.buf == null || buffer.buf == old(buffer.buf) || fresh(buffer.buf))
      ensures Plaintext(records, RT_APPLICATION_DATA) == old(Plaintext(records, RT_APPLICATION_DATA))
              && Pending() == old(Pending())
      ensures !old(writeShutdown).NoShutdown? ==> writeShutdown == old(writeShutdown)
    {
      var choice: nat, n: nat := *, *;
      if choice == 0 {
        var ret := FlushFlight();
      } else if choice == 1 {
        var ret := FlushBuffer();
      } else if choice == 2 {
        var ret := DispatchAlert();
      } else if choice == 3 {
        var ret := SendAlert(AL_WARNING, AD_CLOSE_NOTIFY);
      } else if choice == 4 && AD_CLOSE_NOTIFY < n < 0x100 {
        var ret := SendAlert(AL_FATAL, n);
      } else if choice == 5 {
        var prefix: nat := *;
        SetWriteState(n, prefix);
      } else if flightOffset == 0 {
        AddOne(choice);
      }
    }

    /** Something is added to the flight. */
    method AddOne(choice: nat)
      requires Valid() && flightOffset == 0
      modifies this`refusals, this`pendingFlight, this`records
      ensures Valid() && Plaintext(records, RT_APPLICATION_DATA) == old(Plaintext(records, RT_APPLICATION_DATA))
    {
      ghost var records' := records;
      if choice == 6 {
        var ok, record := AddChangeCipherSpec();
        OneMore(records', record);
        assert records' + [] == records';
      } else if choice == 7 {
        var level: nat, desc: nat := *, *;
        if level < 0x100 && desc < 0x100 {
          var ok, record := AddAlert(level, desc);
          OneMore(records', record);
          assert records' + [] == records';
        }
      } else {
        var message: seq<byte> := *;
        AddOneMessage(message);
      }
    }

    /** Any number of such events. */
    method Interludes()
      requires Valid()
      modifies this`refusals, this`sent, this`records, this`pendingFlight, this`flightOffset
      modifies this`alertDispatch, this`dispatched
      modifies this`sendAlert, this`writeShutdown
      modifies this`wpendPending, this`wpendType, this`wpendRet, this`wpendTot, this`wpendBuf, buffer, buffer.buf
      modifies this`sealOverhead, this`sealPrefix
      ensures Valid() && (buffer.buf == null || buffer.buf == old(buffer.buf) || fresh(buffer.buf))
      ensures Plaintext(records, RT_APPLICATION_DATA) == old(Plaintext(records, RT_APPLICATION_DATA))
              && Pending() == old(Pending())
    {
      var events: nat := *;
      while events > 0
        invariant Valid() && (buffer.buf == null || buffer.buf == old(buffer.buf) || fresh(buffer.buf))
        invariant Plaintext(records, RT_APPLICATION_DATA) == old(Plaintext(records, RT_APPLICATION_DATA))
                  && Pending() == old(Pending())
      {
        Interlude();
        events := events - 1;
      }
    }

    /** A handshake message is not application data. */
    method AddOneMessage(message: seq<byte>)
      requires Valid() && flightOffset == 0
      modifies this`refusals, this`pendingFlight, this`records
      ensures Valid() && Plaintext(records, RT_APPLICATION_DATA) == old(Plaintext(records, RT_APPLICATION_DATA))
    {
      ghost var records' := records;
      var ok, added := AddMessage(message);
      AddedOfOtherType(records', added, RT_HANDSHAKE, RT_APPLICATION_DATA);
    }

    /** Once a closing or fatal alert has been raised, whether or not it is sent yet, no call seals application
        data any more, however often that is tried, with whatever in between. */
    method StaysClosed()
      requires Valid() && !writeShutdown.NoShutdown?
      modifies this, buffer, buffer.buf
      ensures Valid() && writeShutdown == old(writeShutdown)
      ensures Plaintext(records, RT_APPLICATION_DATA) == old(Plaintext(records, RT_APPLICATION_DATA))
    {
      var events: nat := *;
      while events > 0
        invariant Valid() && writeShutdown == old(writeShutdown)
        invariant buffer.buf == null || buffer.buf == old(buffer.buf) || fresh(buffer.buf)
        invariant Plaintext(records, RT_APPLICATION_DATA) == old(Plaintext(records, RT_APPLICATION_DATA))
      {
        var writes: bool := *;
        if writes {
          var input: seq<byte>, address: nat := *, *;
          var ret, needsHandshake := WriteAppData(input, address, |input|, []);
        } else {
          Interlude();
        }
        events := events - 1;
      }
    }

    /** A caller that tries the same write again and again, whatever happens in between and however often
        the transport refuses: when it is told that all is written, the whole of its input has been sealed,
        each byte once, and until then a beginning of it. */
    method WriteAll(input: seq<byte>, address: nat, tries: nat) returns (done: bool)
      requires Valid() && wnum == 0 && Pending() == 0 && !partialWrite && input != []
      modifies this`refusals, this`sent, this`records, this`pendingFlight, this`flightOffset
      modifies this`alertDispatch, this`dispatched
      modifies this`sendAlert, this`writeShutdown
      modifies this`sealOverhead, this`sealPrefix, this`canEarlyWrite, this`earlyDataWritten
      modifies this`wpendPending, this`wpendType, this`wpendRet, this`wpendTot, this`wpendBuf, this`wnum
      modifies buffer, buffer.buf
      ensures Valid()
      ensures done ==> Plaintext(records, RT_APPLICATION_DATA) == old(Plaintext(records, RT_APPLICATION_DATA)) + input
      ensures !done ==> Sealed(records, old(Plaintext(records, RT_APPLICATION_DATA)), input, wnum + Pending())
    {
      ghost var base := Plaintext(records, RT_APPLICATION_DATA);
      assert base + input[..0] == base;
      for i := 0 to tries
        invariant Valid() && Progress(base, input)
        invariant buffer.buf == null || buffer.buf == old(buffer.buf) || fresh(buffer.buf)
      {
        var ret, needsHandshake := WriteAppData(input, address, |input|, base);
        if ret > 0 {
          assert input[..ret] == input;
          return true;
        }
        Interludes();
      }
      return false;
    }
  }

  function Ones(n: nat): seq<byte> {
    seq(n, _ => 1)
  }

  lemma OnesJoin(a: nat, b: nat)
    ensures Ones(a) + Ones(b) == Ones(a + b)
  {
  }

  const FULL_RECORD := MAX_PLAIN_LENGTH + 5

  method AddOnes(w: Writer, n: nat, ghost before: nat)
    requires w.Valid() && w.flightOffset == 0 && w.sealOverhead == 5 && w.Flight() == Ones(before)
    modifies w`pendingFlight, w`records
    ensures w.Valid() && w.Flight() == Ones(before + n + 5)
  {
    OnesJoin(before, n + 5);
    ghost var ok, record := w.AddSealed(RT_HANDSHAKE, Ones(n), Some(Ones(n + 5)));
  }

  /** Three handshake records of full size wait in the flight. */
  method ThreeRecords() returns (w: Writer)
    ensures fresh(w) && fresh(w.buffer) && w.Valid() && w.buffer.buf == null && w.buffer.cap == 0 && !w.buffer.wrapped
    ensures w.sealOverhead == 5 && w.sealPrefix == 5 && w.sent == [] && w.Flight() == Ones(3 * FULL_RECORD)
  {
    w := new Writer(MAX_PLAIN_LENGTH, false, false);
    w.SetWriteState(5, 5);
    AddOnes(w, MAX_PLAIN_LENGTH, 0);
    AddOnes(w, MAX_PLAIN_LENGTH, FULL_RECORD);
    AddOnes(w, MAX_PLAIN_LENGTH, 2 * FULL_RECORD);
  }

  /** A record of application data is sealed behind them, so that the buffer is asked for `cap` bytes. */
  method FilledBuffer(cap: nat) returns (w: Writer)
    requires 65530 <= cap <= 0xffff
    ensures fresh(w) && fresh(w.buffer) && w.Valid() && w.sent == [] && Flat(w.records) == Ones(cap)
    ensures w.buffer.offset == 7 && w.buffer.Contents() == Ones(cap) && w.buffer.Front()[0] == 0
  {
    w := ThreeRecords();
    var last := cap - 3 * FULL_RECORD - 5;
    OnesJoin(3 * FULL_RECORD, last + 5);
    assert w.MaxOut(last) == cap;
    ghost var ok, record := w.QueueSealed(RT_APPLICATION_DATA, Ones(last), Some(Ones(last + 5)), true, 5, 0);
    OnlyBuffered(w.buffer.Contents(), w.records);
  }

  lemma OnlyBuffered(buffered: seq<byte>, records: seq<Record>)
    requires InOrder([], buffered, [], records)
    ensures Flat(records) == buffered
  {
    assert [] + buffered + [] == buffered;
  }

  /** A buffer that is asked for between 65530 and 65535 bytes can break the order: the transport takes all of
      it but the last few bytes, and what it is offered then stood in front of the contents. */
  method OrderBreaks(cap: nat) returns (w: Writer)
    requires 65530 <= cap <= 0xffff
    ensures fresh(w) && w.Valid() && w.buffer.wrapped && w.buffer.size == 0
    ensures !(w.sent <= Flat(w.records))
  {
    w := FilledBuffer(cap);
    assert w.buffer.Rest(65529)[0] == w.buffer.Front()[0];
    Drain(w, 65529);
    assert Ones(cap)[65529] == 1;
  }

  /** The transport takes the buffer in two parts, of which the first makes the offset wrap. */
  method Drain(w: Writer, n: nat)
    requires w.Valid() && w.sent == [] && 0 < n < w.buffer.size && w.buffer.Wraps(n)
    modifies w`sent, w.buffer
    ensures w.Valid() && w.buffer.wrapped && w.buffer.size == 0 && |w.sent| > n
    ensures w.sent[n] == old(w.buffer.Rest(n))[0]
  {
    var ret := w.OfferTaken(n);
    ghost var left := w.buffer.Contents();
    ret := w.OfferTaken(w.buffer.size);
    assert left[..|left|] == left;
  }
}
