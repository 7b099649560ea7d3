/** The server's choice of a cipher: by the client's order, or by its own order of equal-preference groups,
    with the client's order inside a group. */
module CipherChoice {
  import opened Wrappers

  datatype Cipher = Cipher(id: nat, minVersion: nat, maxVersion: nat, mkey: bv32, auth: bv32)

  /** What the connection allows: the protocol version, and the kinds of key exchange and authentication. */
  datatype Config = Config(version: nat, maskK: bv32, maskA: bv32)

  predicate Usable(c: Cipher, cfg: Config) {
    c.minVersion <= cfg.version <= c.maxVersion && c.mkey & cfg.maskK != 0 && c.auth & cfg.maskA != 0
  }

  // ----- what the server can serve -----

  datatype KeyKind = RSA | EC | Ed25519 | OtherKey

  /** The server: the protocol version, the kind of the key of its certificate if it has one, its groups and the
      client's, whether there is a callback for pre-shared keys, and whether it goes by its own preferences. */
  datatype Setup = Setup(
    version: nat, key: Option<KeyKind>, groups: seq<nat>, peerGroups: seq<nat>, psk: bool, serverPreference: bool) {

    predicate GroupShared() {
      exists g :: g in groups && g in peerGroups
    }
  }

  const SSL_kRSA: bv32 := 0x1
  const SSL_kECDHE: bv32 := 0x2
  const SSL_kPSK: bv32 := 0x4
  const SSL_aRSA: bv32 := 0x1
  const SSL_aECDSA: bv32 := 0x2
  const SSL_aPSK: bv32 := 0x4

  /** `ssl_cipher_auth_mask_for_key`. */
  function AuthMaskForKey(key: KeyKind): bv32 {
    match key
    case RSA => SSL_aRSA
    case EC => SSL_aECDSA
    case Ed25519 => SSL_aECDSA
    case OtherKey => 0
  }

  /** What the server needs to serve a cipher: an RSA key to decrypt a premaster secret, a group that the client
      has too for an ephemeral exchange, or a callback for pre-shared keys; and a key that can sign as the
      cipher wants, or again that callback. */
  predicate Serves(c: Cipher, server: Setup) {
    && c.minVersion <= server.version <= c.maxVersion
    && (|| (c.mkey & SSL_kRSA != 0 && server.key == Some(RSA)) || (c.mkey & SSL_kECDHE != 0 && server.GroupShared())
        || (c.mkey & SSL_kPSK != 0 && server.psk))
    && (|| (c.auth & SSL_aRSA != 0 && server.key == Some(RSA))
        || (c.auth & SSL_aECDSA != 0 && (server.key == Some(EC) || server.key == Some(Ed25519)))
        || (c.auth & SSL_aPSK != 0 && server.psk))
  }

  /** A mask of three bits. */
  function Mask(a: bool, b: bool, c: bool): bv32 {
    (if a then 1 else 0) | (if b then 2 else 0) | (if c then 4 else 0)
  }

  lemma MaskBits(m: bv32, a: bool, b: bool, c: bool)
    ensures m & Mask(a, b, c) != 0 <==> (m & 1 != 0 && a) || (m & 2 != 0 && b) || (m & 4 != 0 && c)
  {
  }

  function ConfigOf(server: Setup): Config {
    Config(server.version, Mask(server.key == Some(RSA), server.GroupShared(), server.psk),
           Mask(server.key == Some(RSA), server.key == Some(EC) || server.key == Some(Ed25519), server.psk))
  }

  /** The masks let exactly the ciphers through that the server can serve. */
  lemma UsableIsServed(c: Cipher, server: Setup)
    ensures Usable(c, ConfigOf(server)) <==> Serves(c, server)
  {
    MaskBits(c.mkey, server.key == Some(RSA), server.GroupShared(), server.psk);
    MaskBits(c.auth, server.key == Some(RSA), server.key == Some(EC) || server.key == Some(Ed25519), server.psk);
  }

  /** `tls1_get_shared_group`: the first preferred group that the other side has. */
  method SharedGroup(server: Setup) returns (r: Option<nat>)
    ensures r.Some? <==> server.GroupShared()
    ensures r.Some? ==>
              var pref := if server.serverPreference then server.groups else server.peerGroups;
              var supp := if server.serverPreference then server.peerGroups else server.groups;
              r.value in supp && exists i :: 0 <= i < |pref| && pref[i] == r.value &&
                                             forall j :: 0 <= j < i ==> pref[j] !in supp
  {
    var pref, supp := server.groups, server.peerGroups;
    if !server.serverPreference {
      pref, supp := server.peerGroups, server.groups;
    }
    for i := 0 to |pref|
      invariant forall j :: 0 <= j < i ==> pref[j] !in supp
    {
      for k := 0 to |supp|
        invariant pref[i] !in supp[..k]
      {
        if pref[i] == supp[k] {
          assert pref[i] in server.groups && pref[i] in server.peerGroups;
          return Some(pref[i]);
        }
      }
    }
    return None;
  }

  /** `ssl_get_compatible_server_ciphers`. */
  method CompatibleServerCiphers(server: Setup) returns (cfg: Config)
    ensures cfg == ConfigOf(server)
  {
    var maskK, maskA: bv32 := 0, 0;
    if server.key.Some? {
      maskA := maskA | AuthMaskForKey(server.key.value);
      if server.key.value.RSA? {
        maskK := maskK | SSL_kRSA;
      }
    }
    var group := SharedGroup(server);
    if group.Some? {
      maskK := maskK | SSL_kECDHE;
    }
    if server.psk {
      maskK := maskK | SSL_kPSK;
      maskA := maskA | SSL_aPSK;
    }
    return Config(server.version, maskK, maskA);
  }

  // ----- the order of preference -----

  /** `sk_SSL_CIPHER_find`: the first place in the list. */
  function Find(list: seq<Cipher>, c: Cipher): (r: Option<nat>)
    ensures r.None? <==> c !in list
    ensures r.Some? ==> r.value < |list| && list[r.value] == c && c !in list[..r.value]
  {
    if list == [] then None
    else if list[0] == c then Some(0)
    else
      var r := Find(list[1..], c);
      if r.None? then None else Some(r.value + 1)
  }

  /** Entry `i` of the preferred list can be chosen. */
  predicate Acceptable(prio: seq<Cipher>, allow: seq<Cipher>, cfg: Config, i: nat)
    requires i < |prio|
  {
    Usable(prio[i], cfg) && prio[i] in allow
  }

  /** The group of entry `i`: how many groups end before it. Entry `i` is the last of its group when its
      flag is off. */
  function GroupOf(inGroup: seq<bool>, i: nat): nat
    requires i <= |inGroup|
  {
    if i == 0 then 0 else GroupOf(inGroup, i - 1) + if inGroup[i - 1] then 0 else 1
  }

  lemma {:induction false} GroupsGrow(inGroup: seq<bool>, i: nat, j: nat)
    requires i <= j <= |inGroup|
    ensures GroupOf(inGroup, i) <= GroupOf(inGroup, j)
    ensures i < j && !inGroup[j - 1] ==> GroupOf(inGroup, i) < GroupOf(inGroup, j)
  {
    if i < j {
      GroupsGrow(inGroup, i, j - 1);
    }
  }

  /** Entry `i` comes before entry `j`: in an earlier group, or in the same group and not later in the
      client's list. */
  predicate NotAfter(prio: seq<Cipher>, allow: seq<Cipher>, inGroup: seq<bool>, i: nat, j: nat)
    requires i < |prio| == |inGroup| && j < |prio| && prio[i] in allow && prio[j] in allow
  {
    || GroupOf(inGroup, i) < GroupOf(inGroup, j)
    || (GroupOf(inGroup, i) == GroupOf(inGroup, j) && Find(allow, prio[i]).value <= Find(allow, prio[j]).value)
  }

  /** Entry `i` is acceptable, and no acceptable entry comes before it. */
  predicate Best(prio: seq<Cipher>, allow: seq<Cipher>, inGroup: seq<bool>, cfg: Config, i: nat)
    requires i < |prio| == |inGroup|
  {
    && Acceptable(prio, allow, cfg, i)
    && forall j :: 0 <= j < |prio| && Acceptable(prio, allow, cfg, j) ==> NotAfter(prio, allow, inGroup, i, j)
  }

  /** There is only one best cipher. */
  lemma BestIsUnique(prio: seq<Cipher>, allow: seq<Cipher>, inGroup: seq<bool>, cfg: Config, i: nat, j: nat)
    requires i < |prio| == |inGroup| && j < |prio|
    requires Best(prio, allow, inGroup, cfg, i) && Best(prio, allow, inGroup, cfg, j)
    ensures prio[i] == prio[j]
  {
    assert NotAfter(prio, allow, inGroup, i, j) && NotAfter(prio, allow, inGroup, j, i);
  }

  /** Without groups the best cipher is the first acceptable one. */
  lemma BestWithoutGroups(prio: seq<Cipher>, allow: seq<Cipher>, cfg: Config, i: nat)
    requires i < |prio|
    ensures Best(prio, allow, seq(|prio|, j => false), cfg, i) <==>
            Acceptable(prio, allow, cfg, i) && forall j :: 0 <= j < i ==> !Acceptable(prio, allow, cfg, j)
  {
    var inGroup := seq(|prio|, j => false);
    forall j | 0 <= j < |prio|
      ensures j < i ==> GroupOf(inGroup, j) < GroupOf(inGroup, i)
      ensures i < j ==> GroupOf(inGroup, i) < GroupOf(inGroup, j)
    {
      if j < i {
        GroupsGrow(inGroup, j, i);
      } else if i < j {
        GroupsGrow(inGroup, i, j);
      }
    }
    if Acceptable(prio, allow, cfg, i) && forall j :: 0 <= j < i ==> !Acceptable(prio, allow, cfg, j) {
      forall j | 0 <= j < |prio| && Acceptable(prio, allow, cfg, j)
        ensures NotAfter(prio, allow, inGroup, i, j)
      {
        assert j >= i;
      }
    }
  }

  /** Of the entries before `i`, the acceptable ones are all in the group of `i`, and `groupMin` is the
      smallest place in the client's list of any of them. */
  ghost predicate Scanned(prio: seq<Cipher>, allow: seq<Cipher>, inGroup: seq<bool>, cfg: Config, i: nat,
      groupMin: Option<nat>, best: nat)
    requires i <= |prio| == |inGroup|
  {
    && (groupMin.None? ==> forall j :: 0 <= j < i ==> !Acceptable(prio, allow, cfg, j))
    && (groupMin.Some? ==>
          && best < i && Acceptable(prio, allow, cfg, best) && Find(allow, prio[best]) == groupMin
          && GroupOf(inGroup, best) == GroupOf(inGroup, i)
          && forall j :: 0 <= j < i && Acceptable(prio, allow, cfg, j) ==> NotAfter(prio, allow, inGroup, best, j))
  }

  /** What the scan found in a group is the best of all, when the group ends. */
  lemma GroupEnds(prio: seq<Cipher>, allow: seq<Cipher>, inGroup: seq<bool>, cfg: Config, i: nat, best: nat)
    requires best <= i < |prio| == |inGroup| && !inGroup[i]
    requires Acceptable(prio, allow, cfg, best) && GroupOf(inGroup, best) == GroupOf(inGroup, i)
    requires forall j :: 0 <= j <= i && Acceptable(prio, allow, cfg, j) ==> NotAfter(prio, allow, inGroup, best, j)
    ensures Best(prio, allow, inGroup, cfg, best)
  {
    forall j | i < j < |prio|
      ensures GroupOf(inGroup, best) < GroupOf(inGroup, j)
    {
      GroupsGrow(inGroup, i, i + 1);
      GroupsGrow(inGroup, i + 1, j);
    }
  }

  lemma GroupGoesOn(prio: seq<Cipher>, allow: seq<Cipher>, inGroup: seq<bool>, cfg: Config, i: nat,
      groupMin: Option<nat>, best: nat)
    requires i < |prio| == |inGroup| && Scanned(prio, allow, inGroup, cfg, i, groupMin, best)
    requires inGroup[i] || groupMin.None?
    requires !Acceptable(prio, allow, cfg, i)
    ensures Scanned(prio, allow, inGroup, cfg, i + 1, groupMin, best)
  {
  }

  /** An acceptable entry either becomes the best of its group or leaves the best as it is. */
  lemma OneMoreAcceptable(
    prio: seq<Cipher>, allow: seq<Cipher>, inGroup: seq<bool>, cfg: Config, i: nat, groupMin: Option<nat>, best: nat,
      index: nat)
    returns (best': nat)
    requires i < |prio| == |inGroup| && Scanned(prio, allow, inGroup, cfg, i, groupMin, best)
    requires Acceptable(prio, allow, cfg, i) && Find(allow, prio[i]) == Some(index)
    ensures best' <= i && Acceptable(prio, allow, cfg, best') && GroupOf(inGroup, best') == GroupOf(inGroup, i)
    ensures Find(allow, prio[best']) == if groupMin.None? || groupMin.value > index then Some(index) else groupMin
    ensures forall j :: 0 <= j <= i && Acceptable(prio, allow, cfg, j) ==> NotAfter(prio, allow, inGroup, best', j)
  {
    best' := if groupMin.None? || groupMin.value > index then i else best;
    forall j | 0 <= j <= i && Acceptable(prio, allow, cfg, j)
      ensures NotAfter(prio, allow, inGroup, best', j)
    {
      if j < i {
        assert NotAfter(prio, allow, inGroup, best, j);
      }
    }
  }

  /** The best so far stays in the running while its group goes on. */
  lemma GroupHasBest(prio: seq<Cipher>, allow: seq<Cipher>, inGroup: seq<bool>, cfg: Config, i: nat,
      groupMin: Option<nat>, best: nat)
    requires best <= i < |prio| == |inGroup| && inGroup[i]
    requires Acceptable(prio, allow, cfg, best) && GroupOf(inGroup, best) == GroupOf(inGroup, i)
    requires groupMin.Some? && Find(allow, prio[best]) == groupMin
    requires forall j :: 0 <= j <= i && Acceptable(prio, allow, cfg, j) ==> NotAfter(prio, allow, inGroup, best, j)
    ensures Scanned(prio, allow, inGroup, cfg, i + 1, groupMin, best)
  {
  }

  /** The loop of `ssl3_choose_cipher`. The last entry ends its group. */
  method Scan(prio: seq<Cipher>, allow: seq<Cipher>, inGroup: seq<bool>, cfg: Config)
    returns (r: Option<Cipher>, ghost best: nat)
    requires |inGroup| == |prio| && (prio != [] ==> !inGroup[|prio| - 1])
    ensures r.None? <==> forall j :: 0 <= j < |prio| ==> !Acceptable(prio, allow, cfg, j)
    ensures r.Some? ==> best < |prio| && r.value == prio[best] && Best(prio, allow, inGroup, cfg, best)
  {
    best := 0;
    var groupMin: Option<nat> := None;
    for i := 0 to |prio|
      invariant Scanned(prio, allow, inGroup, cfg, i, groupMin, best)
      invariant groupMin.Some? ==> i > 0 && inGroup[i - 1]
    {
      var c := prio[i];
      var index := Find(allow, c);
      if Usable(c, cfg) && index.Some? {
        ghost var best' := OneMoreAcceptable(prio, allow, inGroup, cfg, i, groupMin, best, index.value);
        if inGroup[i] {
          if groupMin.None? || groupMin.value > index.value {
            groupMin := index;
          }
          best := best';
          GroupHasBest(prio, allow, inGroup, cfg, i, groupMin, best);
        } else {
          var cipherIndex := index.value;
          if groupMin.Some? && groupMin.value < cipherIndex {
            cipherIndex := groupMin.value;
          }
          best := best';
          GroupEnds(prio, allow, inGroup, cfg, i, best);
          return Some(allow[cipherIndex]), best;
        }
      } else if !inGroup[i] && groupMin.Some? {
        GroupEnds(prio, allow, inGroup, cfg, i, best);
        return Some(allow[groupMin.value]), best;
      } else {
        GroupGoesOn(prio, allow, inGroup, cfg, i, groupMin, best);
      }
    }
    return None, best;
  }

  /** `ssl3_choose_cipher`. By server preference, the best cipher of its grouped list; otherwise the first
      acceptable one of the client's list; and none exactly when none is acceptable. */
  method ChooseCipher(client: seq<Cipher>, ciphers: seq<Cipher>, inGroup: seq<bool>, server: Setup)
    returns (r: Option<Cipher>)
    requires |inGroup| == |ciphers| && (ciphers != [] ==> !inGroup[|ciphers| - 1])
    ensures r.None? <==> forall c :: c in client && c in ciphers ==> !Serves(c, server)
    ensures r.Some? ==> r.value in client && r.value in ciphers && Serves(r.value, server)
    ensures r.Some? && server.serverPreference ==>
              exists i :: 0 <= i < |ciphers| && r.value == ciphers[i] &&
                          Best(ciphers, client, inGroup, ConfigOf(server), i)
    ensures r.Some? && !server.serverPreference ==>
              exists i :: 0 <= i < |client| && r.value == client[i]
                && Acceptable(client, ciphers, ConfigOf(server), i) &&
                          forall j :: 0 <= j < i ==> !Acceptable(client, ciphers, ConfigOf(server), j)
  {
    var cfg := CompatibleServerCiphers(server);
    ghost var best;
    if server.serverPreference {
      r, best := Scan(ciphers, client, inGroup, cfg);
      AcceptableInBoth(ciphers, client, cfg);
    } else {
      r, best := Scan(client, ciphers, seq(|client|, i => false), cfg);
      AcceptableInBoth(client, ciphers, cfg);
      if r.Some? {
        BestWithoutGroups(client, ciphers, cfg, best);
      }
    }
    forall c: Cipher
      ensures Usable(c, cfg) <==> Serves(c, server)
    {
      UsableIsServed(c, server);
    }
  }

  lemma AcceptableInBoth(prio: seq<Cipher>, allow: seq<Cipher>, cfg: Config)
    ensures (forall j :: 0 <= j < |prio| ==> !Acceptable(prio, allow, cfg, j)) <==>
            (forall c :: c in prio && c in allow ==> !Usable(c, cfg))
  {
    if forall j :: 0 <= j < |prio| ==> !Acceptable(prio, allow, cfg, j) {
      forall c | c in prio && c in allow
        ensures !Usable(c, cfg)
      {
        var j :| 0 <= j < |prio| && prio[j] == c;
        assert !Acceptable(prio, allow, cfg, j);
      }
    }
  }
}
