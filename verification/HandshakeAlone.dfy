/** One side of the handshake against any peer at all: whatever records arrive, in whatever order and under
    whatever keys, the side gets done only if they are those of a legal handshake. */
module HandshakeAlone {
  import opened HandshakeCore
  import opened HandshakeScript
  import opened HandshakeRun

  // ----- a side, and what it has heard and done -----

  /** The machine's state, the records it has accepted, and what has been said and changed so far, by both
      sides, as this side sees it. */
  datatype Alone<S> = Alone(state: S, core: Core, heard: seq<Item>, acts: seq<Act>)

  datatype Deed = Take(choice: Choice) | Write(n: nat, flushed: bool) | Hear(item: Item) | GoOn

  function ActsOf(s: Script): seq<Act> {
    if s.End? then [] else [s.act] + ActsOf(s.rest)
  }

  function ItemActs(q: seq<Item>): (r: seq<Act>)
    ensures |r| == |q|
  {
    seq(|q|, i requires 0 <= i < |q| => ActOf(q[i]))
  }

  /** What a step has said, heard or changed. */
  function NewActs(c: Core, c': Core): seq<Act> {
    (if c'.buf != c.buf && c.buf != [] then [Says(c.buf[0].from, c.buf[0].kind)] else []) +
    (if c'.readEpoch != c.readEpoch then [Changes(Peer(c.role))] else []) +
    if |c.pending| <= |c'.pending| then ItemActs(c'.pending[|c.pending|..]) else []
  }

  predicate FromPeer(c: Core, i: Item) {
    if i.Handshake? then i.msg.from == Peer(c.role) else i.from == Peer(c.role)
  }

  /** A record may be anything that comes from the peer. */
  predicate CanDo(c: Core, done: bool, d: Deed) {
    match d
    case Take(_) => c.wait.Proceed? && !done
    case Write(n, _) => c.wait.Flush? && n <= |c.pending|
    case Hear(item) => (c.wait.ReadMessage? || c.wait.ReadChangeCipherSpec?) && FromPeer(c, item)
    case GoOn => c.wait.Suspended()
  }

  function Stepped<S>(a: Alone<S>, out: Out<S>): Alone<S> {
    var c := out.core.(wait := out.ret);
    Alone(out.state, c, a.heard, a.acts + NewActs(a.core, c))
  }

  /** What does not concern the machine. */
  function Otherwise<S>(a: Alone<S>, d: Deed): Alone<S>
    requires CanDo(a.core, false, d) && !d.Take?
  {
    match d
    case Write(n, flushed) => a.(core := Flushed(a.core, n, flushed))
    case Hear(item) =>
      var c := Received(a.core, item);
      a.(core := c, heard := if c.wait.Unexpected? then a.heard else a.heard + [item])
    case GoOn => a.(core := a.core.(wait := Proceed))
  }

  predicate Live(c: Core) {
    !c.wait.Unexpected? && !c.wait.Failed?
  }

  // ----- the order of a handshake, up to each point -----

  /** What has happened, the last last. */
  datatype Log = Nothing | Then_(before: Log, act: Act)

  function ListOf(log: Log): seq<Act> {
    if log.Nothing? then [] else ListOf(log.before) + [log.act]
  }

  function Opt(before: Log, b: bool, from: Role, kind: Kind): Log {
    if b then Then_(before, Says(from, kind)) else before
  }

  function UpToHello(): Log {
    Then_(Then_(Nothing, Says(Client, ClientHello)), Says(Server, ServerHello))
  }

  function UpToCertificate(fl: Flags): Log {
    Opt(UpToHello(), fl.certAuth, Server, Certificate)
  }

  function UpToStatus(fl: Flags): Log {
    Opt(UpToCertificate(fl), fl.certAuth && fl.status, Server, CertificateStatus)
  }

  function UpToServerKeys(fl: Flags): Log {
    Opt(UpToStatus(fl), fl.KeyExchangeSent(), Server, ServerKeyExchange)
  }

  function UpToRequest(fl: Flags): Log {
    Opt(UpToServerKeys(fl), fl.CertRequest(), Server, CertificateRequest)
  }

  function UpToHelloDone(fl: Flags): Log {
    Then_(UpToRequest(fl), Says(Server, ServerHelloDone))
  }

  function UpToClientCertificate(fl: Flags): Log {
    Opt(UpToHelloDone(fl), fl.CertRequest(), Client, Certificate)
  }

  function UpToClientKeys(fl: Flags): Log {
    Then_(UpToClientCertificate(fl), Says(Client, ClientKeyExchange))
  }

  function UpToVerify(fl: Flags): Log {
    Opt(UpToClientKeys(fl), fl.CertRequest() && fl.clientHasCert, Client, CertificateVerify)
  }

  /** The end of the client's part: the key change, the next protocol, the Channel ID and Finished. */
  function ClientChange(before: Log): Log {
    Then_(before, Changes(Client))
  }

  function ClientProto(fl: Flags, before: Log): Log {
    Opt(ClientChange(before), fl.npn, Client, NextProto)
  }

  function ClientId(fl: Flags, before: Log): Log {
    Opt(ClientProto(fl, before), fl.channelId, Client, ChannelId)
  }

  function ClientEnd(fl: Flags, before: Log): Log {
    Then_(ClientId(fl, before), Says(Client, Finished))
  }

  /** The same for the server: the ticket, the key change and Finished. */
  function ServerTicket(fl: Flags, before: Log): Log {
    Opt(before, fl.ticket, Server, NewSessionTicket)
  }

  function ServerChange(fl: Flags, before: Log): Log {
    Then_(ServerTicket(fl, before), Changes(Server))
  }

  function ServerEnd(fl: Flags, before: Log): Log {
    Then_(ServerChange(fl, before), Says(Server, Finished))
  }

  /** What comes before the end of the client's part, before the end of the server's, and all of it. */
  function BeforeClientEnd(fl: Flags): Log {
    if fl.resume then ServerEnd(fl, UpToHello()) else UpToVerify(fl)
  }

  function BeforeServerEnd(fl: Flags): Log {
    if fl.resume then UpToHello() else ClientEnd(fl, UpToVerify(fl))
  }

  function WholeHandshake(fl: Flags): Log {
    if fl.resume then ClientEnd(fl, BeforeClientEnd(fl)) else ServerEnd(fl, BeforeServerEnd(fl))
  }

  /** With what is still to come, everything that happens. */
  function With(before: Log, rest: Script): seq<Act> {
    ListOf(before) + ActsOf(rest)
  }

  lemma Onward(before: Log, b: bool, from: Role, kind: Kind, rest: Script)
    ensures With(before, OptionalSay(b, from, kind, rest)) == With(Opt(before, b, from, kind), rest)
  {
    if b {
      OneAct(before, Says(from, kind), rest);
    }
  }

  lemma OneAct(before: Log, act: Act, rest: Script)
    ensures With(before, Then(act, rest)) == With(Then_(before, act), rest)
  {
    assert ListOf(before) + ([act] + ActsOf(rest)) == ListOf(before) + [act] + ActsOf(rest);
  }

  lemma ClientEndActs(fl: Flags, before: Log, rest: Script)
    ensures With(before, ClientEnds(fl, rest)) == With(ClientEnd(fl, before), rest)
  {
    OneAct(before, Changes(Client), NextProtoOn(fl, rest));
    Onward(ClientChange(before), fl.npn, Client, NextProto, ChannelIdOn(fl, rest));
    Onward(ClientProto(fl, before), fl.channelId, Client, ChannelId, Then(Says(Client, Finished), rest));
    OneAct(ClientId(fl, before), Says(Client, Finished), rest);
  }

  lemma ServerEndActs(fl: Flags, before: Log, rest: Script)
    ensures With(before, ServerEnds(fl, rest)) == With(ServerEnd(fl, before), rest)
  {
    Onward(before, fl.ticket, Server, NewSessionTicket, Then(Changes(Server), Then(Says(Server, Finished), rest)));
    OneAct(ServerTicket(fl, before), Changes(Server), Then(Says(Server, Finished), rest));
    OneAct(ServerChange(fl, before), Says(Server, Finished), rest);
  }

  lemma ServerPartActs(fl: Flags)
    ensures With(UpToHello(), CertificateOn(fl)) == With(UpToHelloDone(fl), ClientFlight(fl))
  {
    Onward(UpToHello(), fl.certAuth, Server, Certificate, StatusOn(fl));
    Onward(UpToCertificate(fl), fl.certAuth && fl.status, Server, CertificateStatus, ServerKeysOn(fl));
    Onward(UpToStatus(fl), fl.KeyExchangeSent(), Server, ServerKeyExchange, RequestOn(fl));
    Onward(UpToServerKeys(fl), fl.CertRequest(), Server, CertificateRequest, HelloDoneOn(fl));
    OneAct(UpToRequest(fl), Says(Server, ServerHelloDone), ClientFlight(fl));
  }

  lemma ClientPartActs(fl: Flags)
    ensures With(UpToHelloDone(fl), ClientFlight(fl)) == With(UpToVerify(fl), ClientEnds(fl, AfterClient(fl)))
  {
    Onward(UpToHelloDone(fl), fl.CertRequest(), Client, Certificate, KeyExchangeOn(fl));
    OneAct(UpToClientCertificate(fl), Says(Client, ClientKeyExchange), VerifyOn(fl));
    Onward(UpToClientKeys(fl), fl.CertRequest() && fl.clientHasCert, Client, CertificateVerify,
           ClientEnds(fl, AfterClient(fl)));
  }

  lemma HelloActs(fl: Flags)
    ensures With(Nothing, WholeScript(fl)) ==
            With(UpToHello(), if fl.resume then ServerEnds(fl, AfterServer(fl)) else CertificateOn(fl))
  {
    var rest := if fl.resume then ServerEnds(fl, AfterServer(fl)) else CertificateOn(fl);
    OneAct(Nothing, Says(Client, ClientHello), ServerHelloOn(fl));
    OneAct(Then_(Nothing, Says(Client, ClientHello)), Says(Server, ServerHello), rest);
  }

  /** The points are those of the script. */
  lemma WholeIsScript(fl: Flags)
    ensures With(Nothing, WholeScript(fl)) == With(WholeHandshake(fl), End)
  {
    HelloActs(fl);
    if fl.resume {
      ServerEndActs(fl, UpToHello(), AfterServer(fl));
      ClientEndActs(fl, BeforeClientEnd(fl), End);
    } else {
      ServerPartActs(fl);
      ClientPartActs(fl);
      ClientEndActs(fl, UpToVerify(fl), AfterClient(fl));
      ServerEndActs(fl, BeforeServerEnd(fl), End);
    }
  }

  // ----- the books of a side -----

  /** The messages of one side. */
  function SaidBy(t: seq<Msg>, from: Role): seq<Msg> {
    if t == [] then [] else (if t[0].from == from then [t[0]] else []) + SaidBy(t[1..], from)
  }

  lemma {:induction false} SaidByJoin(a: seq<Msg>, b: seq<Msg>, from: Role)
    ensures SaidBy(a + b, from) == SaidBy(a, from) + SaidBy(b, from)
  {
    if a == [] {
      assert a + b == b;
    } else {
      assert (a + b)[1..] == a[1..] + b && (a + b)[0] == a[0];
      SaidByJoin(a[1..], b, from);
      var first := if a[0].from == from then [a[0]] else [];
      assert first + (SaidBy(a[1..], from) + SaidBy(b, from)) == first + SaidBy(a[1..], from) + SaidBy(b, from);
    }
  }

  function OfRole(acts: seq<Act>, from: Role): seq<Act> {
    if acts == [] then [] else (if acts[0].from == from then [acts[0]] else []) + OfRole(acts[1..], from)
  }

  function SaysIn(acts: seq<Act>): seq<Act> {
    if acts == [] then [] else (if acts[0].Says? then [acts[0]] else []) + SaysIn(acts[1..])
  }

  lemma {:induction false} OfRoleJoin(a: seq<Act>, b: seq<Act>, from: Role)
    ensures OfRole(a + b, from) == OfRole(a, from) + OfRole(b, from)
  {
    if a == [] {
      assert a + b == b;
    } else {
      assert (a + b)[1..] == a[1..] + b && (a + b)[0] == a[0];
      OfRoleJoin(a[1..], b, from);
      var first := if a[0].from == from then [a[0]] else [];
      assert first + (OfRole(a[1..], from) + OfRole(b, from)) == first + OfRole(a[1..], from) + OfRole(b, from);
    }
  }

  lemma {:induction false} SaysInJoin(a: seq<Act>, b: seq<Act>)
    ensures SaysIn(a + b) == SaysIn(a) + SaysIn(b)
  {
    if a == [] {
      assert a + b == b;
    } else {
      assert (a + b)[1..] == a[1..] + b && (a + b)[0] == a[0];
      SaysInJoin(a[1..], b);
      var first := if a[0].Says? then [a[0]] else [];
      assert first + (SaysIn(a[1..]) + SaysIn(b)) == first + SaysIn(a[1..]) + SaysIn(b);
    }
  }

  /** Every Finished and every CertificateVerify is over what comes before it. */
  predicate AllOver(transcript: seq<Msg>) {
    transcript == [] ||
    (var n := |transcript| - 1;
     && (transcript[n].kind.Finished? || transcript[n].kind.CertificateVerify? ==>
          transcript[n].over == transcript[..n])
     && AllOver(transcript[..n]))
  }

  lemma OverOneMore(transcript: seq<Msg>, m: Msg)
    requires AllOver(transcript) && (m.kind.Finished? || m.kind.CertificateVerify? ==> m.over == transcript)
    ensures AllOver(transcript + [m])
  {
    assert (transcript + [m])[..|transcript|] == transcript;
  }

  /** Every record came under the keys that were current then: after as many key changes. */
  predicate UnderKeys(heard: seq<Item>) {
    forall i :: 0 <= i < |heard| ==> heard[i].epoch == KeyChanges(heard[..i])
  }

  lemma OneMoreHeard(heard: seq<Item>, i: Item)
    requires UnderKeys(heard) && i.epoch == KeyChanges(heard)
    ensures UnderKeys(heard + [i]) && KeyChanges(heard + [i]) == KeyChanges(heard) + if i.Handshake? then 0 else 1
    ensures ItemActs(heard + [i]) == ItemActs(heard) + [ActOf(i)]
    ensures Messages(heard + [i]) == Messages(heard) + if i.Handshake? then [i.msg] else []
  {
    var h := heard + [i];
    forall k | 0 <= k < |h|
      ensures h[k].epoch == KeyChanges(h[..k])
    {
      assert h[..k] == heard[..k];
      assert heard[..|heard|] == heard;
    }
    MessagesJoin(heard, [i]);
    assert [i][1..] == [];
  }

  /** What has been heard and not been taken in yet: the message at hand, or a key change. */
  function InHand(c: Core, changing: bool): seq<Act> {
    (if c.buf != [] then [Says(c.buf[0].from, c.buf[0].kind)] else []) +
    if changing then [Changes(Peer(c.role))] else []
  }

  predicate Books(c: Core, changing: bool, heard: seq<Item>, acts: seq<Act>) {
    && ItemActs(heard) == OfRole(acts, Peer(c.role)) + InHand(c, changing)
    && Messages(heard) == SaidBy(c.transcript, Peer(c.role)) + c.buf
    && UnderKeys(heard) && KeyChanges(heard) == c.readEpoch + (if changing then 1 else 0)
    && Spoken(c.transcript) == SaysIn(acts) && AllOver(c.transcript)
    && |c.buf| <= 1 && (c.buf != [] ==> c.buf[0].from == Peer(c.role))
  }

  lemma NoBooks(c: Core)
    requires c.buf == [] && c.transcript == [] && c.readEpoch == 0
    ensures Books(c, false, [], [])
  {
  }

  lemma QuietBooks(c: Core, changing: bool, heard: seq<Item>, acts: seq<Act>, c': Core)
    requires Books(c, changing, heard, acts) && c'.role == c.role && c'.buf == c.buf && c'.transcript == c.transcript
    requires c'.readEpoch == c.readEpoch && |c'.pending| <= |c.pending|
    ensures Books(c', changing, heard, acts) && (c'.pending == c.pending ==> acts + NewActs(c, c') == acts)
  {
    assert c'.pending == c.pending ==> acts + NewActs(c, c') == acts;
  }

  /** The message at hand is taken in. */
  lemma ConsumedBooks(c: Core, heard: seq<Item>, acts: seq<Act>, c': Core)
    requires Books(c, false, heard, acts) && c.buf != [] && c'.role == c.role && c'.buf == c.buf[1..]
    requires c'.transcript == c.transcript + [c.buf[0]] && c'.readEpoch == c.readEpoch && c'.pending == c.pending
    requires c.buf[0].kind.Finished? || c.buf[0].kind.CertificateVerify? ==> c.buf[0].over == c.transcript
    ensures NewActs(c, c') == [Says(c.buf[0].from, c.buf[0].kind)]
    ensures Books(c', false, heard, acts + NewActs(c, c'))
  {
    var act := Says(c.buf[0].from, c.buf[0].kind);
    assert NewActs(c, c') == [act];
    OfRoleJoin(acts, [act], Peer(c.role));
    SaysInJoin(acts, [act]);
    SaidByJoin(c.transcript, [c.buf[0]], Peer(c.role));
    assert [act][1..] == [] && [c.buf[0]][1..] == [] && c.buf == [c.buf[0]];
    OverOneMore(c.transcript, c.buf[0]);
    assert Spoken(c'.transcript) == Spoken(c.transcript) + [act];
  }

  /** The new keys are taken into use. */
  lemma KeyBooks(c: Core, heard: seq<Item>, acts: seq<Act>, c': Core)
    requires Books(c, true, heard, acts) && c.buf == [] && c' == c.(readEpoch := c.readEpoch + 1)
    ensures NewActs(c, c') == [Changes(Peer(c.role))] && Books(c', false, heard, acts + NewActs(c, c'))
  {
    var act := Changes(Peer(c.role));
    assert NewActs(c, c') == [act];
    OfRoleJoin(acts, [act], Peer(c.role));
    SaysInJoin(acts, [act]);
    assert [act][1..] == [];
  }

  lemma {:induction false} OwnActs(fl: Flags, q: seq<Item>, from: Role, transcript: seq<Msg>, epoch: nat)
    requires Proper(fl, q, from, transcript, epoch)
    ensures OfRole(ItemActs(q), Peer(from)) == [] && SaysIn(ItemActs(q)) == Spoken(Messages(q))
    decreases |q|
  {
    if q != [] {
      assert ItemActs(q)[1..] == ItemActs(q[1..]);
      if q[0].Handshake? {
        OwnActs(fl, q[1..], from, transcript + [q[0].msg], epoch);
        SpokenJoin([q[0].msg], Messages(q[1..]));
        assert Spoken([q[0].msg]) == [ActOf(q[0])];
      } else {
        OwnActs(fl, q[1..], from, transcript, epoch + 1);
        assert [] + Messages(q[1..]) == Messages(q[1..]);
      }
    }
  }

  lemma {:induction false} OwnMessages(fl: Flags, q: seq<Item>, from: Role, transcript: seq<Msg>, epoch: nat)
    requires Proper(fl, q, from, transcript, epoch)
    ensures SaidBy(Messages(q), Peer(from)) == []
    decreases |q|
  {
    if q != [] {
      OwnMessages(fl, q[1..], from, if q[0].Handshake? then transcript + [q[0].msg] else transcript,
                  if q[0].Handshake? then epoch else epoch + 1);
      SaidByJoin(if q[0].Handshake? then [q[0].msg] else [], Messages(q[1..]), Peer(from));
    }
  }

  lemma {:induction false} OwnOver(fl: Flags, q: seq<Item>, from: Role, transcript: seq<Msg>, epoch: nat)
    requires Proper(fl, q, from, transcript, epoch) && AllOver(transcript)
    ensures AllOver(transcript + Messages(q))
    decreases |q|
  {
    if q == [] {
      assert transcript + Messages(q) == transcript;
    } else if q[0].Handshake? {
      var m, rest := q[0].msg, Messages(q[1..]);
      OverOneMore(transcript, m);
      OwnOver(fl, q[1..], from, transcript + [m], epoch);
      assert transcript + Messages(q) == transcript + [m] + rest;
    } else {
      OwnOver(fl, q[1..], from, transcript, epoch + 1);
      assert transcript + Messages(q) == transcript + Messages(q[1..]);
    }
  }

  /** These items are added to the flight. */
  lemma SentBooks(fl: Flags, c: Core, script: Script, heard: seq<Item>, acts: seq<Act>, c': Core, script': Script,
      items: seq<Item>)
    requires Books(c, false, heard, acts) && Sends(fl, c, script, c', script', items)
    requires c'.role == c.role && c'.readEpoch == c.readEpoch
    ensures NewActs(c, c') == ItemActs(items) && Books(c', false, heard, acts + NewActs(c, c'))
  {
    assert c'.pending[|c.pending|..] == items;
    assert NewActs(c, c') == ItemActs(items);
    OwnActs(fl, items, c.role, c.transcript, c.writeEpoch);
    OwnMessages(fl, items, c.role, c.transcript, c.writeEpoch);
    OwnOver(fl, items, c.role, c.transcript, c.writeEpoch);
    OfRoleJoin(acts, ItemActs(items), Peer(c.role));
    SaysInJoin(acts, ItemActs(items));
    SpokenJoin(c.transcript, Messages(items));
    SaidByJoin(c.transcript, Messages(items), Peer(c.role));
  }

  lemma {:induction false} QueuedActs(q: seq<Item>, rest: Script)
    ensures ActsOf(Queued(q, rest)) == ItemActs(q) + ActsOf(rest)
    decreases |q|
  {
    if q != [] {
      QueuedActs(q[1..], rest);
      assert ItemActs(q) == [ActOf(q[0])] + ItemActs(q[1..]);
    }
  }

  /** From one point of a handshake to a later one, exactly the items in between are sent. */
  lemma PointsApart(before: Log, after: Log, items: seq<Item>, rest: Script)
    requires With(before, Queued(items, rest)) == With(after, rest)
    ensures ListOf(after) == ListOf(before) + ItemActs(items)
  {
    QueuedActs(items, rest);
    var both := ListOf(before) + ItemActs(items);
    assert both + ActsOf(rest) == With(after, rest);
    assert |both| == |ListOf(after)|;
    assert ListOf(after) == With(after, rest)[..|both|];
    assert both == (both + ActsOf(rest))[..|both|];
  }

  /** One more record is heard. */
  lemma HeardBooks(c: Core, item: Item, heard: seq<Item>, acts: seq<Act>)
    requires Books(c, false, heard, acts) && CanDo(c, false, Hear(item)) && !Received(c, item).wait.Unexpected?
    ensures Books(Received(c, item), c.wait.ReadChangeCipherSpec?, heard + [item], acts)
  {
    OneMoreHeard(heard, item);
    HeardActs(c, item, heard, acts, Received(c, item));
  }

  lemma HeardActs(c: Core, item: Item, heard: seq<Item>, acts: seq<Act>, c': Core)
    requires ItemActs(heard) == OfRole(acts, Peer(c.role)) + InHand(c, false) && FromPeer(c, item)
    requires c.buf == [] && c'.role == c.role && c'.buf == if item.Handshake? then [item.msg] else []
    ensures ItemActs(heard) + [ActOf(item)] == OfRole(acts, Peer(c.role)) + InHand(c', item.ChangeCipherSpec?)
  {
  }

  // ----- a handshake is complete -----

  /** What a side has heard and done is a whole handshake: the acts of the script, each once and in order; of
      these the peer's are what was heard, and the messages among them what was hashed; every record came under
      the right keys; and each Finished and CertificateVerify is over what comes before it. */
  predicate Completed(own: Flags, c: Core, heard: seq<Item>, acts: seq<Act>) {
    && acts == ActsOf(WholeScript(own)) && ItemActs(heard) == OfRole(acts, Peer(c.role)) && UnderKeys(heard)
    && Spoken(c.transcript) == SaysIn(acts) && Messages(heard) == SaidBy(c.transcript, Peer(c.role))
    && AllOver(c.transcript)
  }

  lemma Complete(own: Flags, c: Core, heard: seq<Item>, acts: seq<Act>)
    requires Books(c, false, heard, acts) && c.buf == [] && acts == ListOf(WholeHandshake(own))
    ensures Completed(own, c, heard, acts)
  {
    WholeIsScript(own);
    assert [] + ActsOf(WholeScript(own)) == ActsOf(WholeScript(own)) && acts + [] == acts;
  }
}
