/** Two sides in lockstep: one of them is ahead, and what it has said that the other has not yet heard is
    exactly what is on the way. The two sides are symmetric here. */
module Lockstep {
  import opened HandshakeCore

  /** A side: its fields, what is still to be said as far as it has come, and the number of the keys that the
      next record it reads is to be under. */
  datatype View = View(core: Core, script: Script, epoch: nat)

  /** The message at hand, as a record. */
  function AtHand(v: View): seq<Item> {
    if v.core.buf == [] then [] else [Handshake(v.epoch, v.core.buf[0])]
  }

  /** What `s` has said and `r` has not taken: at hand, on the wire, and in the flight. */
  function OnTheWay(r: View, s: View, wire: seq<Item>): seq<Item> {
    AtHand(r) + wire + s.core.pending
  }

  predicate OneMessage(c: Core) {
    |c.buf| <= 1
  }

  /** `r` has still to hear what is on the way from `s`, and nothing is on the way back. With that, the two
      have the same transcript, use the same keys, and have the same still to say. */
  predicate Behind(fl: Flags, r: View, s: View, q: seq<Item>) {
    && r.script == Queued(q, s.script)
    && s.core.transcript == r.core.transcript + Messages(q)
    && Proper(fl, q, s.core.role, r.core.transcript, r.epoch)
    && s.core.writeEpoch == r.epoch + KeyChanges(q)
    && r.core.writeEpoch == s.epoch
  }

  predicate Lags(fl: Flags, r: View, s: View, wire: seq<Item>, back: seq<Item>) {
    && OneMessage(r.core) && s.core.buf == [] && back == [] && r.core.pending == []
    && s.core.role == Peer(r.core.role)
    && Behind(fl, r, s, OnTheWay(r, s, wire))
  }

  /** One of the two is behind, or neither. */
  predicate InLockstep(fl: Flags, a: View, b: View, toA: seq<Item>, toB: seq<Item>) {
    Lags(fl, a, b, toA, toB) || Lags(fl, b, a, toB, toA)
  }

  lemma LagsExpects(fl: Flags, r: View, s: View, wire: seq<Item>, back: seq<Item>)
    requires Lags(fl, r, s, wire, back)
    ensures Expecting(fl, r.core, r.script) && Expecting(fl, s.core, s.script)
  {
    var q := OnTheWay(r, s, wire);
    if r.core.buf != [] {
      assert q[0] == Handshake(r.epoch, r.core.buf[0]);
    }
  }

  /** The message at hand is always the one that is expected. */
  lemma LockstepExpects(fl: Flags, a: View, b: View, toA: seq<Item>, toB: seq<Item>)
    requires InLockstep(fl, a, b, toA, toB)
    ensures Expecting(fl, a.core, a.script)
  {
    if Lags(fl, a, b, toA, toB) {
      LagsExpects(fl, a, b, toA, toB);
    } else {
      LagsExpects(fl, b, a, toB, toA);
    }
  }

  // ----- steps -----

  /** A step of one side, and its script by the same. */
  predicate Steps(fl: Flags, v: View, v': View, items: seq<Item>) {
    Moves(fl, v.core, v.script, v'.core, v'.script, items) && v'.epoch == v.epoch
  }

  lemma ReaderConsumes(fl: Flags, r: View, s: View, wire: seq<Item>, back: seq<Item>, r': View)
    requires Lags(fl, r, s, wire, back) && Consumes(r.core, r.script, r'.core, r'.script)
    requires r'.epoch == r.epoch && r'.core.role == r.core.role
    ensures Lags(fl, r', s, wire, back)
  {
    var q, q' := OnTheWay(r, s, wire), OnTheWay(r', s, wire);
    var m := r.core.buf[0];
    assert AtHand(r') == [];
    assert q == [Handshake(r.epoch, m)] + q';
    assert q[0] == Handshake(r.epoch, m) && q[1..] == q';
    assert r.core.transcript + ([m] + Messages(q')) == r.core.transcript + [m] + Messages(q');
  }

  /** What a side says first in a script is its own. */
  lemma FirstIsOwn(fl: Flags, items: seq<Item>, from: Role, transcript: seq<Msg>, epoch: nat)
    requires items != [] && Proper(fl, items, from, transcript, epoch)
    ensures ActOf(items[0]).from == from
  {
  }

  lemma NothingOnTheWay(fl: Flags, r: View, s: View, wire: seq<Item>, back: seq<Item>, r': View, items: seq<Item>)
    requires Lags(fl, r, s, wire, back) && Sends(fl, r.core, r.script, r'.core, r'.script, items) && items != []
    ensures r.core.buf == [] && wire == [] && s.core.pending == []
    ensures r.script == s.script && r.core.transcript == s.core.transcript && s.core.writeEpoch == r.epoch
  {
    var q := OnTheWay(r, s, wire);
    FirstIsOwn(fl, items, r.core.role, r.core.transcript, r.core.writeEpoch);
    if q != [] {
      FirstIsOwn(fl, q, s.core.role, r.core.transcript, r.epoch);
      assert false;
    }
    assert |q| == |AtHand(r)| + |wire| + |s.core.pending|;
  }

  lemma ReaderSends(fl: Flags, r: View, s: View, wire: seq<Item>, back: seq<Item>, r': View, items: seq<Item>)
    requires Lags(fl, r, s, wire, back) && Sends(fl, r.core, r.script, r'.core, r'.script, items)
    requires r'.epoch == r.epoch && r'.core.role == r.core.role
    ensures InLockstep(fl, r', s, wire, back)
  {
    if items == [] {
      assert r.core.pending + [] == r.core.pending && r.core.transcript + [] == r.core.transcript;
      assert OnTheWay(r', s, wire) == OnTheWay(r, s, wire);
    } else {
      NothingOnTheWay(fl, r, s, wire, back, r', items);
      assert OnTheWay(s, r', back) == items;
    }
  }

  lemma SenderSends(fl: Flags, r: View, s: View, wire: seq<Item>, back: seq<Item>, s': View, items: seq<Item>)
    requires Lags(fl, r, s, wire, back) && Sends(fl, s.core, s.script, s'.core, s'.script, items)
    requires s'.epoch == s.epoch && s'.core.role == s.core.role
    ensures Lags(fl, r, s', wire, back)
  {
    var q, q' := OnTheWay(r, s, wire), OnTheWay(r, s', wire);
    assert q' == q + items;
    QueuedJoin(q, items, s'.script);
    MessagesJoin(q, items);
    ProperJoin(fl, q, items, s.core.role, r.core.transcript, r.epoch);
    assert r.core.transcript + Messages(q) + Messages(items) == r.core.transcript + (Messages(q) + Messages(items));
  }

  /** A step of either side keeps the two in lockstep. */
  lemma StepKeepsLockstep(fl: Flags, v: View, o: View, toV: seq<Item>, toO: seq<Item>, v': View, items: seq<Item>)
    requires InLockstep(fl, v, o, toV, toO) && Steps(fl, v, v', items)
    ensures InLockstep(fl, v', o, toV, toO)
  {
    if Lags(fl, v, o, toV, toO) {
      if Consumes(v.core, v.script, v'.core, v'.script) {
        ReaderConsumes(fl, v, o, toV, toO, v');
      } else {
        ReaderSends(fl, v, o, toV, toO, v', items);
      }
    } else {
      SenderSends(fl, o, v, toO, toV, v', items);
    }
  }

  // ----- the transport -----

  /** Records that the transport takes are still on the way. */
  lemma FlushKeepsLockstep(fl: Flags, v: View, o: View, toV: seq<Item>, toO: seq<Item>, v': View, n: nat)
    requires InLockstep(fl, v, o, toV, toO) && n <= |v.core.pending|
    requires v' == v.(core := v'.core) && v'.core == v.core.(pending := v.core.pending[n..], wait := v'.core.wait)
    ensures InLockstep(fl, v', o, toV, toO + v.core.pending[..n])
  {
    if Lags(fl, o, v, toO, toV) {
      assert OnTheWay(o, v', toO + v.core.pending[..n]) == OnTheWay(o, v, toO) by {
        assert v.core.pending == v.core.pending[..n] + v.core.pending[n..];
      }
    } else {
      assert v.core.pending[n..] == [] && v.core.pending[..n] == [];
      assert toO + v.core.pending[..n] == toO;
    }
  }

  /** Only a side that is behind has anything to read, and the next record is what its script has next. */
  lemma NextRecord(fl: Flags, v: View, o: View, toV: seq<Item>, toO: seq<Item>)
    requires InLockstep(fl, v, o, toV, toO) && toV != [] && v.core.buf == []
    ensures Lags(fl, v, o, toV, toO) && v.script.Then? && v.script.act == ActOf(toV[0]) && toV[0].epoch == v.epoch
  {
    assert OnTheWay(v, o, toV)[0] == toV[0];
  }

  lemma TakeMessage(fl: Flags, v: View, o: View, toV: seq<Item>, toO: seq<Item>, v': View)
    requires InLockstep(fl, v, o, toV, toO) && toV != [] && v.core.buf == [] && toV[0].Handshake?
    requires v' == v.(core := v'.core) && v'.core == v.core.(buf := [toV[0].msg], wait := v'.core.wait)
    ensures InLockstep(fl, v', o, toV[1..], toO)
  {
    NextRecord(fl, v, o, toV, toO);
    assert OnTheWay(v', o, toV[1..]) == OnTheWay(v, o, toV);
  }

  lemma TakeKeyChange(fl: Flags, v: View, o: View, toV: seq<Item>, toO: seq<Item>, v': View)
    requires InLockstep(fl, v, o, toV, toO) && toV != [] && v.core.buf == [] && toV[0].ChangeCipherSpec?
    requires v'.core == v.core.(wait := v'.core.wait) && v'.epoch == v.epoch + 1
    requires v.script.Then? && v'.script == v.script.rest
    ensures InLockstep(fl, v', o, toV[1..], toO)
  {
    NextRecord(fl, v, o, toV, toO);
    var q, q' := OnTheWay(v, o, toV), OnTheWay(v', o, toV[1..]);
    assert q[0] == toV[0] && q[1..] == q';
    assert [] + Messages(q') == Messages(q');
  }

  // ----- the end -----

  /** Whatever the one has said that the other has not heard, the transcript of the one that is behind is a
      beginning of the other's. */
  lemma TranscriptsAgree(fl: Flags, a: View, b: View, toA: seq<Item>, toB: seq<Item>)
    requires InLockstep(fl, a, b, toA, toB)
    ensures a.core.transcript <= b.core.transcript || b.core.transcript <= a.core.transcript
  {
  }

  /** With nothing more to be said, nothing is on the way, and the transcripts are equal. */
  lemma EndsEqual(fl: Flags, a: View, b: View, toA: seq<Item>, toB: seq<Item>)
    requires InLockstep(fl, a, b, toA, toB) && a.script.End? && b.script.End?
    ensures toA == [] && toB == [] && a.core.transcript == b.core.transcript
    ensures a.core.buf == [] && b.core.buf == [] && a.core.pending == [] && b.core.pending == []
  {
    if Lags(fl, a, b, toA, toB) {
      EndEmpties(fl, a, b, toA, toB);
    } else {
      EndEmpties(fl, b, a, toB, toA);
    }
  }

  lemma EndEmpties(fl: Flags, r: View, s: View, wire: seq<Item>, back: seq<Item>)
    requires Lags(fl, r, s, wire, back) && r.script.End?
    ensures wire == [] && r.core.buf == [] && s.core.pending == [] && r.core.transcript == s.core.transcript
  {
    var q := OnTheWay(r, s, wire);
    assert q == [];
    assert |q| == |AtHand(r)| + |wire| + |s.core.pending|;
  }
}
