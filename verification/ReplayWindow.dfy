/** The DTLS replay window: the 64-bit map of `DTLS1_BITMAP` against the set of sequence numbers it
    stands for, and the record reader that consults it (section 4.1.2.6 of RFC 6347). */
module ReplayWindow {
  import opened Words
  import opened Bytes
  import opened Wrappers

  const WINDOW_SIZE := 64
  const MAX_ENCRYPTED_LENGTH := 16384 + 256 + 64
  const MAX_PLAIN_LENGTH := 16384
  const RECORD_HEADER_LENGTH := 13
  const DTLS1_VERSION_MAJOR := 0xfe
  const MAX_SEQUENCE := 0x1_0000_0000_0000
  const RT_ALERT := 21
  const AD_RECORD_OVERFLOW := 22

  /** The word `map` and the number `max` describe exactly the numbers in `recorded`, as far as the
      window reaches: bit `k` stands for `max - k`. */
  ghost predicate Represents(map_: nat, max: nat, recorded: set<nat>) {
    && map_ < Pow2(WINDOW_SIZE)
    && (forall s :: s in recorded ==> s <= max)
    && (if recorded == {} then max == 0 else max in recorded)
    && (forall k: nat :: k < WINDOW_SIZE ==> (Bit(map_, k) <==> k <= max && max - k in recorded))
  }

  /** The rule the window implements: too old, or already there. */
  ghost predicate ShouldDiscard(max: nat, recorded: set<nat>, s: nat) {
    s <= max && (max - s >= 64 || s in recorded)
  }

  lemma EmptyRepresents()
    ensures Represents(0, 0, {})
  {
    forall k: nat | k < WINDOW_SIZE
      ensures !Bit(0, k)
    {
      ZeroBit(k);
    }
  }

  /** Sliding the window to a larger number and setting its bit adds exactly that number. */
  lemma SlideRepresents(map_: nat, max: nat, recorded: set<nat>, s: nat, shifted: nat)
    requires Represents(map_, max, recorded)
    requires s > max
    requires shifted == if s - max >= WINDOW_SIZE then 0 else ShiftLeft(map_, s - max, WINDOW_SIZE)
    ensures Represents(Or(shifted, Pow2(0)), s, recorded + {s})
  {
    Pow2Monotone(1, WINDOW_SIZE);
    LowFits(Scale(map_, s - max), WINDOW_SIZE);
    OrFits(shifted, Pow2(0), WINDOW_SIZE);
    forall k: nat | k < WINDOW_SIZE
      ensures Bit(Or(shifted, Pow2(0)), k) <==> k <= s && s - k in recorded + {s}
    {
      OrBit(shifted, Pow2(0), k);
      Pow2Bit(0, k);
      if s - max >= WINDOW_SIZE {
        ZeroBit(k);
      } else {
        ShiftLeftBit(map_, s - max, WINDOW_SIZE, k);
        if s - max <= k {
          assert Bit(map_, k - (s - max)) <==> k - (s - max) <= max && max - (k - (s - max)) in recorded;
        }
      }
    }
  }

  /** Setting the bit of a number inside the window adds exactly that number; one that has left the
      window changes nothing the window can see. */
  lemma MarkRepresents(map_: nat, max: nat, recorded: set<nat>, s: nat)
    requires Represents(map_, max, recorded)
    requires s <= max && (s == max || recorded != {})
    ensures Represents(if max - s < WINDOW_SIZE then Or(map_, Pow2(max - s)) else map_, max, recorded + {s})
  {
    if max - s < WINDOW_SIZE {
      Pow2Monotone(max - s + 1, WINDOW_SIZE);
      OrFits(map_, Pow2(max - s), WINDOW_SIZE);
      var marked := Or(map_, Pow2(max - s));
      forall k: nat | k < WINDOW_SIZE
        ensures Bit(marked, k) <==> k <= max && max - k in recorded + {s}
      {
        OrBit(map_, Pow2(max - s), k);
        Pow2Bit(max - s, k);
      }
    }
  }

  /** `to_u64_be`: the value of eight bytes, built by shifting. */
  method ToU64Be(input: seq<byte>) returns (ret: nat)
    requires |input| == 8
    ensures ret == BigEndian(input) < Pow2(64)
  {
    ret := 0;
    for i := 0 to 8
      invariant ret == BigEndian(input[..i]) < Pow2(8 * i)
    {
      assert input[..i + 1][..i] == input[..i];
      AppendByte(ret, input[i], i);
      ret := ShiftLeft(ret, 8, 64);
      ret := Or(ret, input[i]);
    }
    assert input[..8] == input;
  }

  /** One round of the loop: shifting in a byte multiplies by 256 and adds, and nothing is lost while
      fewer than eight bytes have been read. */
  lemma AppendByte(ret: nat, b: byte, i: nat)
    requires i < 8 && ret < Pow2(8 * i)
    ensures Or(ShiftLeft(ret, 8, 64), b) == 256 * ret + b < Pow2(8 * (i + 1))
  {
    ScaleByte(ret);
    ScaleByte(1);
    NextByte(ret, b, i);
    AppendBits(ret, b, 8 * i, 8, 64);
  }

  lemma NextByte(ret: nat, b: byte, i: nat)
    requires ret < Pow2(8 * i)
    ensures 256 * ret + b < Pow2(8 * i + 8)
  {
    Pow2Add(8 * i, 8);
    ScaleByte(Pow2(8 * i));
  }

  lemma AppendBits(ret: nat, b: nat, n: nat, shift: nat, width: nat)
    requires n + shift <= width && ret < Pow2(n) && b < Pow2(shift) && Scale(ret, shift) + b < Pow2(n + shift)
    ensures Or(ShiftLeft(ret, shift, width), b) == Scale(ret, shift) + b
  {
    Pow2Monotone(n + shift, width);
    LowSmall(Scale(ret, shift), width);
    OrIsAdd(b, ret, shift);
    OrCommutes(Scale(ret, shift), b);
  }

  lemma {:induction false} OrCommutes(a: nat, b: nat)
    ensures Or(a, b) == Or(b, a)
  {
    if a != 0 && b != 0 {
      OrCommutes(a / 2, b / 2);
    }
  }

  /** `DTLS1_BITMAP`. */
  class Bitmap {
    var map_: nat
    var maxSeqNum: nat
    ghost var recorded: set<nat>

    ghost predicate Valid()
      reads this
    {
      Represents(map_, maxSeqNum, recorded)
    }

    constructor ()
      ensures Valid() && recorded == {}
    {
      map_, maxSeqNum, recorded := 0, 0, {};
      new;
      EmptyRepresents();
    }

    method Clear()
      modifies this
      ensures Valid() && recorded == {}
    {
      map_, maxSeqNum, recorded := 0, 0, {};
      EmptyRepresents();
    }

    /** `dtls1_bitmap_should_discard`. */
    method Stale(seqNum: nat) returns (discard: bool)
      requires Valid()
      ensures discard <==> ShouldDiscard(maxSeqNum, recorded, seqNum)
    {
      if seqNum > maxSeqNum {
        return false;
      }
      var idx := maxSeqNum - seqNum;
      return idx >= WINDOW_SIZE || Bit(map_, idx);
    }

    /** `dtls1_bitmap_record`. */
    method Record(seqNum: nat)
      requires Valid()
      modifies this
      ensures Valid() && recorded == old(recorded) + {seqNum}
    {
      ghost var oldMap, oldMax, oldSet := map_, maxSeqNum, recorded;
      if seqNum > maxSeqNum {
        var shift := seqNum - maxSeqNum;
        if shift >= WINDOW_SIZE {
          map_ := 0;
        } else {
          map_ := ShiftLeft(map_, shift, WINDOW_SIZE);
        }
        maxSeqNum := seqNum;
      }
      ghost var shifted := map_;
      var idx := maxSeqNum - seqNum;
      if idx < WINDOW_SIZE {
        map_ := Or(map_, Pow2(idx));
      }
      recorded := recorded + {seqNum};
      if seqNum > oldMax {
        SlideRepresents(oldMap, oldMax, oldSet, seqNum, shifted);
      } else {
        MarkRepresents(oldMap, oldMax, oldSet, seqNum);
      }
    }
  }

  /** A record as it lies in a datagram; `sequence` holds the epoch and the 48-bit number. */
  datatype Record = Record(recordType: byte, version: nat, sequence: seq<byte>, body: seq<byte>, consumed: nat)

  function ParseRecord(input: seq<byte>): (r: Option<Record>)
    ensures r.Some? ==> |r.value.sequence| == 8 && 0 < r.value.consumed <= |input|
    ensures r.Some? ==> r.value.consumed == RECORD_HEADER_LENGTH + |r.value.body|
  {
    if |input| < RECORD_HEADER_LENGTH then None
    else
      var length := ReadU16(input[11..]);
      if |input| < RECORD_HEADER_LENGTH + length || length > MAX_ENCRYPTED_LENGTH then None
      else Some(Record(input[0], ReadU16(input[1..]), input[3..11], input[13..13 + length], 13 + length))
  }

  /** The fields of a record's header lie where section 4.1 of RFC 6347 puts them: one byte of type, two of version,
      two of epoch and six of number, and two of length, each with the highest byte first; and of at most 16704
      bytes there must be as many as the last one says. */
  lemma RecordLayout(s: seq<byte>)
    requires |s| >= 13
    ensures var len := BigEndian(s[11..13]);
            && (ParseRecord(s).Some? <==> |s| >= 13 + len && len <= 16704)
            && (ParseRecord(s).Some? ==>
                  ParseRecord(s).value == Record(s[0], BigEndian(s[1..3]), s[3..11], s[13..13 + len], 13 + len))
  {
    TwoBytes(s[1..]);
    TwoBytes(s[11..]);
    assert s[1..][..2] == s[1..3] && s[11..][..2] == s[11..13];
  }

  /** The first two bytes are the top 16 bits, whatever follows them. */
  lemma {:induction false} LeadingU16(s: seq<byte>)
    requires |s| >= 2
    ensures BigEndian(s) / Pow2(8 * (|s| - 2)) == ReadU16(s)
  {
    var front := s[..|s| - 1];
    if |s| == 2 {
      assert front[..0] == [] && front == [s[0]];
      assert BigEndian(front) == s[0];
    } else {
      LeadingU16(front);
      var x, p := BigEndian(front), Pow2(8 * (|front| - 2));
      Pow2Add(8 * (|front| - 2), 8);
      ScaleByte(p);
      DivideStep(x, s[|s| - 1], p);
    }
  }

  lemma SixBytes()
    ensures Pow2(48) == MAX_SEQUENCE
  {
    ScaleByte(1);
    Pow2Add(8, 8);
    ScaleByte(Pow2(8));
    Pow2Add(16, 8);
    ScaleByte(Pow2(16));
    Pow2Add(24, 8);
    ScaleByte(Pow2(24));
    Pow2Add(32, 8);
    ScaleByte(Pow2(32));
    Pow2Add(40, 8);
    ScaleByte(Pow2(40));
  }

  lemma LeadingEpoch(s: seq<byte>)
    requires |s| == 8
    ensures BigEndian(s) / MAX_SEQUENCE == ReadU16(s)
  {
    LeadingU16(s);
    SixBytes();
  }

  lemma DivideStep(x: nat, b: byte, p: nat)
    requires p > 0
    ensures (256 * x + b) / (256 * p) == x / p
  {
    var q, r := x / p, x % p;
    Associate(q, p);
    ModUnique(256 * x + b, 256 * p, q, 256 * r + b);
  }

  lemma Associate(q: nat, p: nat)
    ensures q * (256 * p) == 256 * (q * p)
  {
  }

  /** The records accepted so far are pairwise different, none is from a later epoch, and those of the
      current epoch are in the window's set. */
  ghost predicate NoRepeats(accepted: seq<nat>, epoch: nat, recorded: set<nat>) {
    && (forall i, j :: 0 <= i < j < |accepted| ==> accepted[i] != accepted[j])
    && (forall i :: 0 <= i < |accepted| ==> accepted[i] / MAX_SEQUENCE <= epoch)
    && (forall i :: 0 <= i < |accepted| && accepted[i] / MAX_SEQUENCE == epoch ==> accepted[i] in recorded)
  }

  /** Accepting what the window lets through cannot repeat a record: one outside the set is new, and
      one beyond the maximum is outside the set. */
  lemma AcceptIsNew(accepted: seq<nat>, epoch: nat, max: nat, recorded: set<nat>, s: nat)
    requires NoRepeats(accepted, epoch, recorded)
    requires forall x :: x in recorded ==> x <= max
    requires s / MAX_SEQUENCE == epoch && !ShouldDiscard(max, recorded, s)
    ensures NoRepeats(accepted + [s], epoch, recorded + {s})
  {
    assert s !in recorded;
    assert forall i :: 0 <= i < |accepted| ==> accepted[i] != s;
  }

  datatype OpenResult =
    | OpenSuccess(recordType: byte, plaintext: seq<byte>)
    | OpenAlert(alertBody: seq<byte>)
    | OpenDiscard
    | OpenPartial
    | OpenCloseNotify
    | OpenError(alert: nat)

  /** The next epoch begins with nothing recorded. */
  lemma EpochEnds(accepted: seq<nat>, epoch: nat, recorded: set<nat>)
    requires NoRepeats(accepted, epoch, recorded)
    ensures NoRepeats(accepted, epoch + 1, {})
  {
  }

  /** The part of the connection `dtls_open_record` and `dtls1_set_read_state` work on. */
  class RecordReader {
    const bitmap: Bitmap
    var readEpoch: nat
    var readClosed: bool
    var nullCipher: bool
    var recordVersion: nat
    /** The eight-byte sequences of all records opened so far, in order. */
    ghost var accepted: seq<nat>
    /** Whether the 16-bit read epoch has started over. */
    ghost var wrapped: bool

    ghost predicate Valid()
      reads this, bitmap
    {
      && bitmap.Valid()
      && readEpoch < 0x1_0000
      && (!wrapped ==> NoRepeats(accepted, readEpoch, bitmap.recorded))
    }

    constructor (version: nat)
      ensures Valid() && fresh(bitmap) && bitmap.recorded == {} && accepted == [] && !wrapped && readEpoch == 0
    {
      bitmap := new Bitmap();
      readEpoch, readClosed, nullCipher, recordVersion := 0, false, true, version;
      accepted, wrapped := [], false;
    }

    /** Before there are keys, the versions from 0xfe00 to 0xfeff, which are those of DTLS; afterwards only the
        one of the keys. */
    ghost predicate RightVersion(version: nat)
      reads this
    {
      (nullCipher && 0xfe00 <= version <= 0xfeff) || (!nullCipher && version == recordVersion)
    }

    /** Whether `dtls_open_record` lets the record through: right version and epoch, not stale, and
        authentic. */
    ghost predicate Admits(record: Record, decrypted: Option<seq<byte>>)
      requires |record.sequence| == 8
      reads this, bitmap
    {
      && RightVersion(record.version)
      && ReadU16(record.sequence) == readEpoch
      && !ShouldDiscard(bitmap.maxSeqNum, bitmap.recorded, BigEndian(record.sequence))
      && decrypted.Some?
    }

    /** `dtls_open_record`. The authenticated decryption is outside the model: `decrypted` is its answer
        for this record, should it be asked. */
    method OpenRecord(input: seq<byte>, decrypted: Option<seq<byte>>) returns (result: OpenResult, consumed: nat)
      requires Valid()
      modifies bitmap, this`accepted
      ensures Valid()
      ensures readClosed ==> result == OpenCloseNotify && consumed == 0
      ensures !readClosed && input == [] ==> result == OpenPartial && consumed == 0
      ensures !readClosed && input != [] ==>
                consumed == if ParseRecord(input).None? || !RightVersion(ParseRecord(input).value.version) then |input|
                            else ParseRecord(input).value.consumed
      ensures !readClosed && input != [] ==>
                (result != OpenDiscard <==>
                 ParseRecord(input).Some? && old(Admits(ParseRecord(input).value, decrypted)))
      ensures !readClosed && input != [] && result != OpenDiscard ==>
                var plaintext, recordType := decrypted.value, ParseRecord(input).value.recordType;
                result == (if |plaintext| > MAX_PLAIN_LENGTH then OpenError(AD_RECORD_OVERFLOW)
                           else if recordType == RT_ALERT then OpenAlert(plaintext)
                           else OpenSuccess(recordType, plaintext))
      ensures if result.OpenSuccess? || result.OpenAlert? then
                var s := BigEndian(ParseRecord(input).value.sequence);
                accepted == old(accepted) + [s] && bitmap.recorded == old(bitmap.recorded) + {s}
              else accepted == old(accepted) && bitmap.recorded == old(bitmap.recorded)
    {
      if readClosed {
        return OpenCloseNotify, 0;
      }
      if input == [] {
        return OpenPartial, 0;
      }
      var parsed := ParseRecord(input);
      if parsed.None? {
        return OpenDiscard, |input|;
      }
      var record := parsed.value;
      if !VersionOk(record.version) {
        return OpenDiscard, |input|;
      }
      consumed := record.consumed;
      var epoch := ReadU16(record.sequence);
      var seqNum := ToU64Be(record.sequence);
      var discard := bitmap.Stale(seqNum);
      if epoch != readEpoch || discard {
        return OpenDiscard, consumed;
      }
      if decrypted.None? {
        return OpenDiscard, consumed;
      }
      result := AcceptPlaintext(record, decrypted.value);
    }

    /** The end of `dtls_open_record`, for a record that is new and authentic. */
    method AcceptPlaintext(record: Record, plaintext: seq<byte>) returns (result: OpenResult)
      requires Valid() && |record.sequence| == 8 && ReadU16(record.sequence) == readEpoch
      requires !ShouldDiscard(bitmap.maxSeqNum, bitmap.recorded, BigEndian(record.sequence))
      modifies bitmap, this`accepted
      ensures Valid()
      ensures result == (if |plaintext| > MAX_PLAIN_LENGTH then OpenError(AD_RECORD_OVERFLOW)
                         else if record.recordType == RT_ALERT then OpenAlert(plaintext)
                         else OpenSuccess(record.recordType, plaintext))
      ensures if |plaintext| > MAX_PLAIN_LENGTH then accepted == old(accepted)
              && bitmap.recorded == old(bitmap.recorded)
              else
                && accepted == old(accepted) + [BigEndian(record.sequence)]
                && bitmap.recorded == old(bitmap.recorded) + {BigEndian(record.sequence)}
    {
      if |plaintext| > MAX_PLAIN_LENGTH {
        return OpenError(AD_RECORD_OVERFLOW);
      }
      var seqNum := ToU64Be(record.sequence);
      if !wrapped {
        LeadingEpoch(record.sequence);
        AcceptIsNew(accepted, readEpoch, bitmap.maxSeqNum, bitmap.recorded, seqNum);
      }
      bitmap.Record(seqNum);
      accepted := accepted + [seqNum];
      result := if record.recordType == RT_ALERT then OpenAlert(plaintext)
        else OpenSuccess(record.recordType, plaintext);
    }

    /** The version check: only the major number before there are keys. */
    predicate VersionOk(version: nat)
      reads this
    {
      if nullCipher then version / 0x100 == DTLS1_VERSION_MAJOR else version == recordVersion
    }

    /** `dtls1_set_read_state`: refused while handshake data of the old epoch is left over. */
    method SetReadState(leftover: bool, version: nat) returns (ok: bool)
      requires Valid()
      modifies this, bitmap
      ensures Valid() && ok == !leftover && accepted == old(accepted)
      ensures ok ==> readEpoch == (old(readEpoch) + 1) % 0x1_0000 && bitmap.recorded == {}
      ensures ok ==> !nullCipher && recordVersion == version
      ensures !ok ==> readEpoch == old(readEpoch) && bitmap.recorded == old(bitmap.recorded)
      ensures wrapped <==> old(wrapped) || (ok && readEpoch == 0)
      ensures readClosed == old(readClosed)
    {
      if leftover {
        return false;
      }
      if !wrapped {
        EpochEnds(accepted, readEpoch, bitmap.recorded);
      }
      readEpoch := (readEpoch + 1) % 0x1_0000;
      wrapped := wrapped || readEpoch == 0;
      bitmap.Clear();
      nullCipher, recordVersion := false, version;
      return true;
    }
  }
}
