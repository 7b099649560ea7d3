/** The two-word bitset `fields_seen` with which the decoder keeps track of required fields. */
module PbRequired {
  import opened Words
  import opened Bytes
  import opened Wrappers
  import opened PbSchema
  import opened PbFieldIter
  import opened PbDecodeSpec

  const WORDS := MAX_REQUIRED_FIELDS / 32

  /** The words hold exactly the numbers in `seen`. */
  ghost predicate Represents(words: seq<nat>, seen: set<nat>) {
    && |words| == WORDS
    && (forall w :: 0 <= w < WORDS ==> words[w] < Pow2(32))
    && (forall k: nat :: k < MAX_REQUIRED_FIELDS ==> (Bit(words[k / 32], k % 32) <==> k in seen))
    && (forall k: nat :: k in seen ==> k < MAX_REQUIRED_FIELDS)
  }

  lemma NothingSeen(words: seq<nat>)
    requires |words| == WORDS && forall w :: 0 <= w < WORDS ==> words[w] == 0
    ensures Represents(words, {})
  {
    forall k: nat | k < MAX_REQUIRED_FIELDS
      ensures !Bit(words[k / 32], k % 32)
    {
      ZeroBit(k % 32);
    }
  }

  lemma SeeField(words: seq<nat>, seen: set<nat>, n: nat)
    requires Represents(words, seen) && n < MAX_REQUIRED_FIELDS
    ensures Represents(words[n / 32 := Or(words[n / 32], Pow2(n % 32))], seen + {n})
  {
    var marked := words[n / 32 := Or(words[n / 32], Pow2(n % 32))];
    Pow2Monotone(n % 32 + 1, 32);
    OrFits(words[n / 32], Pow2(n % 32), 32);
    forall k: nat | k < MAX_REQUIRED_FIELDS
      ensures Bit(marked[k / 32], k % 32) <==> k in seen + {n}
    {
      OrBit(words[n / 32], Pow2(n % 32), k % 32);
      Pow2Bit(n % 32, k % 32);
    }
  }

  /** The check at the end of `pb_decode_noinit`: whole words of ones, then the rest of the bits. */
  method AllSeen(words: array<nat>, ghost seen: set<nat>, count: nat) returns (ok: bool)
    requires Represents(words[..], seen) && count <= MAX_REQUIRED_FIELDS
    requires forall k :: k in seen ==> k < count
    ensures ok <==> forall k :: 0 <= k < count ==> k in seen
  {
    if count == 0 {
      return true;
    }
    for i := 0 to count / 32
      invariant forall k: nat :: k < 32 * i ==> k in seen
    {
      WordFull(words[..], seen, i, 32);
      if words[i] != Pow2(32) - 1 {
        return false;
      }
    }
    if count % 32 != 0 {
      ok := RestSeen(words[count / 32], words[..], seen, count / 32, count % 32);
      return;
    }
    return true;
  }

  /** The remaining bits. */
  method RestSeen(word: nat, ghost words: seq<nat>, ghost seen: set<nat>, ghost i: nat, n: nat) returns (ok: bool)
    requires Represents(words, seen) && i < WORDS && 0 < n < 32 && word == words[i]
    requires forall k :: k in seen ==> k < 32 * i + n
    ensures ok <==> forall k :: 32 * i <= k < 32 * i + n ==> k in seen
  {
    WordFull(words, seen, i, n);
    var ones := LowOnes(32, n);
    return word == ones;
  }

  /** `allbits >> (size - n)`. */
  method LowOnes(size: nat, n: nat) returns (ones: nat)
    requires n <= size
    ensures ones == Pow2(n) - 1
  {
    OnesShiftRight(size, size - n);
    ones := ShiftRight(Pow2(size) - 1, size - n);
  }

  lemma BitOfWord(words: seq<nat>, seen: set<nat>, i: nat, b: nat)
    requires Represents(words, seen) && i < WORDS && b < 32
    ensures Bit(words[i], b) <==> 32 * i + b in seen
  {
    var k := 32 * i + b;
    assert k / 32 == i && k % 32 == b;
    assert Bit(words[k / 32], k % 32) <==> k in seen;
  }

  /** A word compared with `n` ones tells whether all of its first `n` fields, and no others, were seen. */
  lemma WordFull(words: seq<nat>, seen: set<nat>, i: nat, n: nat)
    requires Represents(words, seen) && i < WORDS && 0 < n <= 32
    requires forall k :: k in seen ==> k < 32 * i + n || k >= 32 * i + 32
    ensures words[i] == Pow2(n) - 1 <==> forall k :: 32 * i <= k < 32 * i + n ==> k in seen
  {
    if forall k :: 32 * i <= k < 32 * i + n ==> k in seen {
      SeenIsFull(words, seen, i, n);
    }
    if words[i] == Pow2(n) - 1 {
      forall k | 32 * i <= k < 32 * i + n
        ensures k in seen
      {
        FullIsSeen(words, seen, i, n, k - 32 * i);
      }
    }
  }

  lemma FullIsSeen(words: seq<nat>, seen: set<nat>, i: nat, n: nat, b: nat)
    requires Represents(words, seen) && i < WORDS && b < n <= 32 && words[i] == Pow2(n) - 1
    ensures 32 * i + b in seen
  {
    OnesBit(n, b);
    BitOfWord(words, seen, i, b);
  }

  lemma SeenIsFull(words: seq<nat>, seen: set<nat>, i: nat, n: nat)
    requires Represents(words, seen) && i < WORDS && 0 < n <= 32
    requires forall k: nat :: 32 * i <= k < 32 * i + 32 ==> (k in seen <==> k < 32 * i + n)
    ensures words[i] == Pow2(n) - 1
  {
    forall b: nat | b < 32
      ensures Bit(words[i], b) <==> Bit(Pow2(n) - 1, b)
    {
      SeenBit(words, seen, i, n, b);
    }
    AllOnes(words[i], n, 32);
  }

  lemma AllOnes(word: nat, n: nat, size: nat)
    requires n <= size && word < Pow2(size)
    requires forall b: nat :: b < size ==> (Bit(word, b) <==> Bit(Pow2(n) - 1, b))
    ensures word == Pow2(n) - 1
  {
    Pow2Monotone(n, size);
    SameBits(word, Pow2(n) - 1, size);
  }

  lemma SeenBit(words: seq<nat>, seen: set<nat>, i: nat, n: nat, b: nat)
    requires Represents(words, seen) && i < WORDS && n <= 32 && b < 32
    requires forall k: nat :: 32 * i <= k < 32 * i + 32 ==> (k in seen <==> k < 32 * i + n)
    ensures Bit(words[i], b) <==> Bit(Pow2(n) - 1, b)
  {
    OnesBit(n, b);
    BitOfWord(words, seen, i, b);
  }

  lemma {:induction false} ReqIndexMonotone(desc: Desc, i: nat, j: nat)
    requires i <= j <= |desc.fields|
    ensures ReqIndex(desc, i) <= ReqIndex(desc, j)
    ensures i < j && desc.fields[i].htype.Required? ==> ReqIndex(desc, i) < ReqIndex(desc, j)
  {
    if i < j {
      ReqIndexMonotone(desc, i, j - 1);
    }
  }

  /** Every number below the total is the number of some required field. */
  lemma {:induction false} ReqIndexOnto(desc: Desc, n: nat, k: nat)
    requires n <= |desc.fields| && k < ReqIndex(desc, n)
    ensures exists i :: 0 <= i < n && desc.fields[i].htype.Required? && ReqIndex(desc, i) == k
  {
    if k < ReqIndex(desc, n - 1) {
      ReqIndexOnto(desc, n - 1, k);
    }
  }

  /** So the check on numbers is the check on fields. */
  lemma CountedIsSeen(desc: Desc, seen: set<nat>, total: nat, count: nat)
    requires total == ReqIndex(desc, |desc.fields|)
    requires count == if total > MAX_REQUIRED_FIELDS then MAX_REQUIRED_FIELDS else total
    ensures (forall k :: 0 <= k < count ==> k in seen) <==> RequiredSeen(desc, seen)
  {
    if RequiredSeen(desc, seen) {
      forall k: nat | k < count
        ensures k in seen
      {
        ReqIndexOnto(desc, |desc.fields|, k);
      }
    }
    if forall k :: 0 <= k < count ==> k in seen {
      forall i | 0 <= i < |desc.fields| && desc.fields[i].htype.Required? && ReqIndex(desc, i) < MAX_REQUIRED_FIELDS
        ensures ReqIndex(desc, i) in seen
      {
        ReqIndexMonotone(desc, i, |desc.fields|);
      }
    }
  }

  // ----- what having been seen means -----

  /** The loop comes to an occurrence of field `i`. */
  predicate Meets(desc: Desc, s: seq<byte>, st: State, i: nat)
    decreases |s|
  {
    s != [] &&
    var tag, turn := ReadTag(s), DecTurn(desc, s, st);
    turn.Took? && (FindFrom(desc, tag.tag, 0) == Some(i) || Meets(desc, turn.rest, turn.state, i))
  }

  lemma TurnSeen(desc: Desc, s: seq<byte>, st: State, i: nat)
    requires i < |desc.fields| && desc.fields[i].htype.Required? && ReqIndex(desc, i) < MAX_REQUIRED_FIELDS
    requires DecTurn(desc, s, st).Took?
    ensures ReqIndex(desc, i) in DecTurn(desc, s, st).state.seen <==>
            ReqIndex(desc, i) in st.seen || FindFrom(desc, ReadTag(s).tag, 0) == Some(i)
  {
    var j := FindFrom(desc, ReadTag(s).tag, 0);
    if j.Some? {
      if j.value < i {
        ReqIndexMonotone(desc, j.value, i);
      } else {
        ReqIndexMonotone(desc, i, j.value);
      }
    }
  }

  lemma {:induction false} LoopSeen(desc: Desc, s: seq<byte>, st: State, i: nat)
    requires i < |desc.fields| && desc.fields[i].htype.Required? && ReqIndex(desc, i) < MAX_REQUIRED_FIELDS
    requires DecLoop(desc, s, st).Some?
    ensures ReqIndex(desc, i) in DecLoop(desc, s, st).value.state.seen <==>
            (ReqIndex(desc, i) in st.seen || Meets(desc, s, st, i))
    decreases |s|
  {
    if s != [] {
      var turn := DecTurn(desc, s, st);
      if turn.Took? {
        TurnSeen(desc, s, st, i);
        LoopSeen(desc, turn.rest, turn.state, i);
      }
    }
  }

  /** Decoding succeeds exactly when the loop does, the last fixed-count array is complete and each of the
      first 64 required fields occurs in the input. */
  lemma RequiredFieldsOccur(desc: Desc, s: seq<byte>, slots: seq<Slot>)
    ensures var l := DecLoop(desc, s, Start(slots));
            DecMsg(desc, s, slots).Some? <==>
            && l.Some? && FixedComplete(desc, l.value.state)
            && forall i ::
                 (0 <= i < |desc.fields| && desc.fields[i].htype.Required?
                   && ReqIndex(desc, i) < MAX_REQUIRED_FIELDS) ==>
                 Meets(desc, s, Start(slots), i)
  {
    var l := DecLoop(desc, s, Start(slots));
    if l.Some? {
      forall i | 0 <= i < |desc.fields| && desc.fields[i].htype.Required? && ReqIndex(desc, i) < MAX_REQUIRED_FIELDS
        ensures ReqIndex(desc, i) in l.value.state.seen <==> Meets(desc, s, Start(slots), i)
      {
        LoopSeen(desc, s, Start(slots), i);
      }
    }
  }
}
