/** Writing DTLS records: epochs, sequence numbers and the AEADs of the current and the previous epoch
    (section 4.1 of RFC 6347). */
module RecordWriter {
  import opened Words
  import opened Bytes
  import opened Wrappers
  import opened ReplayWindow

  /** What makes a record's nonce unique: its epoch and its 48-bit sequence number. */
  datatype Nonce = Nonce(epoch: nat, seqNum: nat)

  /** A sealed record with its header; of its ciphertext only the length matters. */
  datatype SealedRecord = SealedRecord(recordType: byte, nonce: Nonce, header: seq<byte>, plaintext: seq<byte>,
      length: nat)

  // ----- the header -----

  /** The lowest `n` bytes of a number, in big-endian order. */
  function BigEndianBytes(v: nat, n: nat): (s: seq<byte>)
    ensures |s| == n
  {
    if n == 0 then [] else BigEndianBytes(v / 256, n - 1) + [v % 256]
  }

  lemma {:induction false} BigEndianRoundTrip(v: nat, n: nat)
    requires v < Pow2(8 * n)
    ensures BigEndian(BigEndianBytes(v, n)) == v
  {
    if n > 0 {
      Pow2Add(8 * (n - 1), 8);
      ScaleByte(Pow2(8 * (n - 1)));
      BigEndianRoundTrip(v / 256, n - 1);
      assert BigEndianBytes(v, n)[..n - 1] == BigEndianBytes(v / 256, n - 1);
    }
  }

  /** Epoch and number, as they stand in the header. */
  function SequenceBytes(nonce: Nonce): (s: seq<byte>)
    requires nonce.epoch < 0x1_0000
    ensures |s| == 8
  {
    U16(nonce.epoch) + BigEndianBytes(nonce.seqNum, 6)
  }

  function RecordHeader(recordType: byte, version: nat, nonce: Nonce, cipherLen: nat): (s: seq<byte>)
    requires version < 0x1_0000 && nonce.epoch < 0x1_0000 && cipherLen < 0x1_0000
    ensures |s| == RECORD_HEADER_LENGTH
  {
    [recordType] + U16(version) + SequenceBytes(nonce) + U16(cipherLen)
  }

  /** A reader that accepts the length reads the header as it was written: the same type, version, epoch
      and number, and the ciphertext behind it. */
  lemma HeaderParses(recordType: byte, version: nat, nonce: Nonce, ciphertext: seq<byte>, more: seq<byte>)
    requires version < 0x1_0000 && nonce.epoch < 0x1_0000 && nonce.seqNum < MAX_SEQUENCE && |ciphertext| < 0x1_0000
    ensures var r := ParseRecord(RecordHeader(recordType, version, nonce, |ciphertext|) + ciphertext + more);
            && (r.Some? <==> |ciphertext| <= MAX_ENCRYPTED_LENGTH)
            && (r.Some? ==>
                  && r.value.recordType == recordType && r.value.version == version && r.value.body == ciphertext
                  && ReadU16(r.value.sequence) == nonce.epoch && BigEndian(r.value.sequence[2..]) == nonce.seqNum)
  {
    var header := RecordHeader(recordType, version, nonce, |ciphertext|);
    var input := header + ciphertext + more;
    assert ReadU16(input[11..]) == |ciphertext| && ReadU16(input[1..]) == version;
    assert input[3..11] == SequenceBytes(nonce);
    assert input[13..13 + |ciphertext|] == ciphertext;
    assert SequenceBytes(nonce)[2..] == BigEndianBytes(nonce.seqNum, 6);
    SixBytes();
    BigEndianRoundTrip(nonce.seqNum, 6);
  }

  // ----- nonces -----

  /** No nonce has been used for sealing twice, and the numbers to come are larger than all those used
      in the current and in the previous epoch. */
  ghost predicate NoncesFresh(attempts: seq<Nonce>, epoch: nat, writeSeq: nat, lastWriteSeq: nat) {
    && (forall i, j :: 0 <= i < j < |attempts| ==> attempts[i] != attempts[j])
    && forall i :: 0 <= i < |attempts| ==>
         && attempts[i].epoch <= epoch
         && (attempts[i].epoch == epoch ==> attempts[i].seqNum < writeSeq)
         && (attempts[i].epoch + 1 == epoch ==> attempts[i].seqNum < lastWriteSeq)
  }

  /** A new epoch starts its numbers at zero and keeps the counter of the one before. */
  lemma FreshInNextEpoch(attempts: seq<Nonce>, epoch: nat, writeSeq: nat, lastWriteSeq: nat)
    requires NoncesFresh(attempts, epoch, writeSeq, lastWriteSeq)
    ensures NoncesFresh(attempts, epoch + 1, 0, writeSeq)
  {
  }

  /** Using the next number of the current or of the previous epoch, and counting it up. */
  lemma FreshAfterUse(attempts: seq<Nonce>, epoch: nat, writeSeq: nat, lastWriteSeq: nat, previous: bool)
    requires NoncesFresh(attempts, epoch, writeSeq, lastWriteSeq) && (previous ==> epoch >= 1)
    ensures if previous then NoncesFresh(attempts + [Nonce(epoch - 1, lastWriteSeq)], epoch, writeSeq, lastWriteSeq + 1)
            else NoncesFresh(attempts + [Nonce(epoch, writeSeq)], epoch, writeSeq + 1, lastWriteSeq)
  {
  }

  class Writer {
    var writeEpoch: nat
    var writeSeq: nat
    /** The record version of the current AEAD. */
    var version: nat
    var lastWriteSeq: nat
    // How much the current and the previous AEAD add at most, and how long their explicit nonces are.
    var maxOverhead: nat
    var nonceLen: nat
    var lastMaxOverhead: nat
    var lastNonceLen: nat
    /** All nonces ever passed to an AEAD. */
    ghost var attempts: seq<Nonce>
    /** How often sealing has failed: the AEAD refused or its output was too long, or the sequence wrapped. */
    ghost var failures: nat
    /** Whether sealing has failed or the 16-bit epoch has started over. */
    ghost var spoilt: bool

    ghost predicate Valid()
      reads this
    {
      && nonceLen <= maxOverhead && lastNonceLen <= lastMaxOverhead
      && version < 0x1_0000 && writeEpoch < 0x1_0000 && writeSeq < MAX_SEQUENCE && lastWriteSeq < MAX_SEQUENCE
      && (!spoilt ==> NoncesFresh(attempts, writeEpoch, writeSeq, lastWriteSeq))
    }

    constructor (version: nat)
      requires version < 0x1_0000
      ensures Valid() && attempts == [] && !spoilt && writeEpoch == 0
    {
      this.version, writeEpoch, writeSeq, lastWriteSeq := version, 0, 0, 0;
      maxOverhead, nonceLen, lastMaxOverhead, lastNonceLen := 0, 0, 0, 0;
      attempts, spoilt, failures := [], false, 0;
    }

    /** `dtls1_set_write_state`. */
    method SetWriteState(overhead: nat, nonce: nat, recordVersion: nat)
      requires Valid() && nonce <= overhead && recordVersion < 0x1_0000
      modifies this
      ensures Valid() && attempts == old(attempts) && version == recordVersion
      ensures writeEpoch == (old(writeEpoch) + 1) % 0x1_0000 && writeSeq == 0 && lastWriteSeq == old(writeSeq)
      ensures lastMaxOverhead == old(maxOverhead) && lastNonceLen == old(nonceLen)
      ensures maxOverhead == overhead && nonceLen == nonce
      ensures spoilt <==> old(spoilt) || writeEpoch == 0
    {
      if !spoilt {
        FreshInNextEpoch(attempts, writeEpoch, writeSeq, lastWriteSeq);
      }
      writeEpoch := (writeEpoch + 1) % 0x1_0000;
      spoilt := spoilt || writeEpoch == 0;
      lastWriteSeq, writeSeq, version := writeSeq, 0, recordVersion;
      lastMaxOverhead, lastNonceLen, maxOverhead, nonceLen := maxOverhead, nonceLen, overhead, nonce;
    }

    /** `dtls_max_seal_overhead`. */
    function SealOverhead(previous: bool): nat
      reads this
    {
      RECORD_HEADER_LENGTH + if previous then lastMaxOverhead else maxOverhead
    }

    /** `dtls_seal_prefix_len`. */
    function SealPrefix(previous: bool): nat
      reads this
    {
      RECORD_HEADER_LENGTH + if previous then lastNonceLen else nonceLen
    }

    /** The nonce of the next record of the current or of the previous epoch. */
    function Next(previous: bool): Nonce
      requires previous ==> writeEpoch >= 1
      reads this
    {
      if previous then Nonce(writeEpoch - 1, lastWriteSeq) else Nonce(writeEpoch, writeSeq)
    }

    /** The input lies `inputAt` bytes behind the start of the output, and overlaps it other than in the
        place for sealing in place. */
    predicate Aliases(previous: bool, inputAt: int, inputLen: nat, maxOut: nat)
      reads this
    {
      inputAt + inputLen > 0 && maxOut > inputAt && (maxOut < SealPrefix(previous) || inputAt != SealPrefix(previous))
    }

    /** `dtls_seal_record`. The input lies anywhere (`inputAt`, from the start of the output). Whether the
        AEAD succeeds, and how long its output is up to its stated maximum, is left open. */
    method SealRecord(previous: bool, recordType: byte, plaintext: seq<byte>, inputAt: int, maxOut: nat)
      returns (r: Option<SealedRecord>)
      requires Valid() && (previous ==> writeEpoch >= 1)
      modifies this`writeSeq, this`lastWriteSeq, this`attempts, this`spoilt, this`failures
      ensures Valid() && (old(spoilt) ==> spoilt)
      ensures attempts == old(attempts) +
                if old(Aliases(previous, inputAt, |plaintext|, maxOut)) || maxOut < RECORD_HEADER_LENGTH then []
                else [old(Next(previous))]
      ensures failures == old(failures) +
                if r.Some? || old(Aliases(previous, inputAt, |plaintext|, maxOut))
                  || maxOut < RECORD_HEADER_LENGTH then 0
                else 1
      ensures r.Some? ==>
                && !old(Aliases(previous, inputAt, |plaintext|, maxOut)) && maxOut >= RECORD_HEADER_LENGTH
                && spoilt == old(spoilt)
                && RECORD_HEADER_LENGTH <= r.value.length < RECORD_HEADER_LENGTH + 0x1_0000
                && r.value.length <= |plaintext| + old(SealOverhead(previous))
                && r.value.recordType == recordType && r.value.nonce == old(Next(previous))
                && r.value.plaintext == plaintext
                && r.value.header == RecordHeader(recordType, version, r.value.nonce,
                     r.value.length - RECORD_HEADER_LENGTH)
    {
      var nonce, overhead := Next(previous), SealOverhead(previous);
      if Aliases(previous, inputAt, |plaintext|, maxOut) || maxOut < RECORD_HEADER_LENGTH {
        return None;
      }
      if !spoilt {
        FreshAfterUse(attempts, writeEpoch, writeSeq, lastWriteSeq, previous);
      }
      attempts := attempts + [nonce];
      var sealed: bool := *;
      var cipherLen: nat :| cipherLen + RECORD_HEADER_LENGTH <= |plaintext| + overhead;
      if !sealed {
        spoilt, failures := true, failures + 1;
        return None;
      }
      // ssl_record_sequence_update: increment, and report the wrap to zero.
      var next := (nonce.seqNum + 1) % MAX_SEQUENCE;
      spoilt := spoilt || next == 0;
      if previous {
        lastWriteSeq := next;
      } else {
        writeSeq := next;
      }
      if next == 0 {
        failures := failures + 1;
        return None;
      }
      if cipherLen >= 0x1_0000 {
        failures := failures + 1;
        return None;
      }
      var header := RecordHeader(recordType, version, nonce, cipherLen);
      return Some(SealedRecord(recordType, nonce, header, plaintext, RECORD_HEADER_LENGTH + cipherLen));
    }
  }
}
