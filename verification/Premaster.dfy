/** The RSA premaster secret: the padding of the decrypted block is checked, and the secret selected,
    without a branch that depends on the block. */
module Premaster {
  import opened Wrappers
  import opened ConstantTime

  const SECRET_LENGTH := 48

  // ----- what it means, with branches -----

  /** The place of the first zero from `i` on. */
  function FirstZero(block: seq<bv8>, i: nat): (r: Option<nat>)
    requires i <= |block|
    ensures r.Some? ==> i <= r.value < |block| && block[r.value] == 0 && forall j :: i <= j < r.value ==> block[j] != 0
    ensures r.None? ==> forall j :: i <= j < |block| ==> block[j] != 0
    decreases |block| - i
  {
    if i == |block| then None else if block[i] == 0 then Some(i) else FirstZero(block, i + 1)
  }

  /** Section 7.2.2 of RFC 3447: 00 02, at least eight bytes of padding without a zero, a zero, and the
      message. */
  function Unpad(block: seq<bv8>): Option<seq<bv8>> {
    if |block| < 11 || block[0] != 0 || block[1] != 2 then None
    else
      var z := FirstZero(block, 2);
      if z.None? || z.value < 10 then None else Some(block[z.value + 1..])
  }

  /** Section 7.4.7.1 of RFC 5246: a message of the right length that begins with the client's version is
      the secret; for anything else there is a random one. */
  function Secret(block: seq<bv8>, version: bv16, random: seq<bv8>): seq<bv8> {
    var m := Unpad(block);
    if m.Some? && |m.value| == SECRET_LENGTH && m.value[0] == High(version) && m.value[1] == Low(version) then m.value
    else random
  }

  function High(version: bv16): bv8 {
    (version >> 8) as bv8
  }

  function Low(version: bv16): bv8 {
    (version & 0xff) as bv8
  }

  /** What a client encrypts: the padding, without a zero in it, around the message. */
  function Padded(padding: seq<bv8>, message: seq<bv8>): seq<bv8> {
    [0, 2] + padding + [0] + message
  }

  predicate IsPadding(padding: seq<bv8>) {
    |padding| >= 8 && 0 !in padding
  }

  /** Exactly the padded messages are decoded, each to its message. */
  lemma UnpadExactly(block: seq<bv8>, message: seq<bv8>)
    ensures Unpad(block) == Some(message) <==> exists padding :: IsPadding(padding) && block == Padded(padding, message)
  {
    if padding :| IsPadding(padding) && block == Padded(padding, message) {
      PaddedDecodes(padding, message);
    }
    if Unpad(block) == Some(message) {
      var z := FirstZero(block, 2).value;
      var padding := block[2..z];
      assert IsPadding(padding) && block == Padded(padding, message);
    }
  }

  lemma PaddedDecodes(padding: seq<bv8>, message: seq<bv8>)
    requires IsPadding(padding)
    ensures Unpad(Padded(padding, message)) == Some(message)
  {
    var block, p := Padded(padding, message), |padding| + 2;
    assert block[0] == 0 && block[1] == 2 && block[p] == 0 && block[p + 1..] == message;
    assert forall j :: 2 <= j < p ==> block[j] == padding[j - 2];
    var z := FirstZero(block, 2);
    assert z == Some(p);
  }

  // ----- what the code checks -----

  /** The padding is right up to `i`. */
  predicate PaddedTo(block: seq<bv8>, i: nat)
    requires 2 <= i <= |block|
  {
    block[0] == 0 && block[1] == 2 && forall j :: 2 <= j < i ==> block[j] != 0
  }

  /** For a block with room for the padding, the checks at fixed places amount to decoding. */
  lemma FixedPlaces(block: seq<bv8>, version: bv16, random: seq<bv8>)
    requires |block| >= 11 + SECRET_LENGTH && |random| == SECRET_LENGTH
    ensures var p := |block| - SECRET_LENGTH;
            Secret(block, version, random) ==
            if PaddedTo(block, p - 1) && block[p - 1] == 0 && block[p] == High(version) && block[p + 1] == Low(version)
            then block[p..]
            else random
  {
    var p := |block| - SECRET_LENGTH;
    var z := FirstZero(block, 2);
    if PaddedTo(block, p - 1) && block[p - 1] == 0 {
      assert z == Some(p - 1);
    }
  }

  lemma VersionBytes(version: bv16)
    ensures (version >> 8) as bv64 == High(version) as bv64
    ensures (version & 0xff) as bv64 == Low(version) as bv64
  {
  }

  lemma SameByte(a: bv8, b: bv8)
    ensures a as bv64 == b as bv64 <==> a == b
  {
  }

  lemma MaskAnd(a: bool, b: bool)
    ensures Mask8(a) & Mask8(b) == Mask8(a && b)
    ensures Mask8(a) & !Mask8(b) == Mask8(a && !b)
  {
  }

  /** The padding check and selection of `do_read_client_key_exchange`. `premaster` holds the random
      secret on entry, and is overwritten only when the mask says so. */
  method SelectPremaster(block: array<bv8>, premaster: array<bv8>, version: bv16) returns (ok: bool)
    requires premaster.Length == SECRET_LENGTH && block != premaster
    modifies premaster
    ensures ok <==> block.Length >= 11 + SECRET_LENGTH
    ensures premaster[..] == if ok then Secret(block[..], version, old(premaster[..])) else old(premaster[..])
  {
    if block.Length < 11 + premaster.Length {
      return false;
    }
    var paddingLen := block.Length - premaster.Length;
    var good := CheckPadding(block, paddingLen, version);
    for i := 0 to premaster.Length
      invariant forall j :: 0 <= j < i ==>
                  premaster[j] == if good == TRUE_8 then block[paddingLen + j] else old(premaster[j])
      invariant forall j :: i <= j < premaster.Length ==> premaster[j] == old(premaster[j])
    {
      premaster[i] := Select8(good, block[paddingLen + i], premaster[i]);
    }
    FixedPlaces(block[..], version, old(premaster[..]));
    return true;
  }

  /** The mask: all ones exactly when every check passes. */
  method CheckPadding(block: array<bv8>, paddingLen: nat, version: bv16) returns (good: bv8)
    requires block.Length >= 11 + SECRET_LENGTH && paddingLen == block.Length - SECRET_LENGTH
    ensures good == Mask8(
                      PaddedTo(block[..], paddingLen - 1) && block[paddingLen - 1] == 0 &&
                      block[paddingLen] == High(version) && block[paddingLen + 1] == Low(version))
  {
    good := Eq8(block[0] as bv64, 0) & Eq8(block[1] as bv64, 2);
    SameByte(block[0], 0);
    SameByte(block[1], 2);
    MaskAnd(block[0] == 0, block[1] == 2);
    for i := 2 to paddingLen - 1
      invariant good == Mask8(PaddedTo(block[..], i))
    {
      SameByte(block[i], 0);
      MaskAnd(PaddedTo(block[..], i), block[i] == 0);
      good := good & !IsZero8(block[i] as bv64);
    }
    SameByte(block[paddingLen - 1], 0);
    SameByte(block[paddingLen], High(version));
    SameByte(block[paddingLen + 1], Low(version));
    VersionBytes(version);
    var padded := PaddedTo(block[..], paddingLen - 1);
    MaskAnd(padded, block[paddingLen - 1] == 0);
    good := good & IsZero8(block[paddingLen - 1] as bv64);
    MaskAnd(padded && block[paddingLen - 1] == 0, block[paddingLen] == High(version));
    good := good & Eq8(block[paddingLen] as bv64, (version >> 8) as bv64);
    MaskAnd(padded && block[paddingLen - 1] == 0
      && block[paddingLen] == High(version), block[paddingLen + 1] == Low(version));
    good := good & Eq8(block[paddingLen + 1] as bv64, (version & 0xff) as bv64);
  }
}
