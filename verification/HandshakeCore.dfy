/** What the client's and the server's handshake machines of TLS 1.0 to 1.2 have in common: messages, the
    flags that were negotiated, and the fields of the handshake that the steps of both work on. */
module HandshakeCore {

  datatype Role = Client | Server

  function Peer(r: Role): Role {
    if r.Client? then Server else Client
  }

  datatype Kind =
    | ClientHello | ServerHello | NewSessionTicket | Certificate | CertificateStatus | ServerKeyExchange
    | CertificateRequest | ServerHelloDone | ClientKeyExchange | CertificateVerify | NextProto | ChannelId | Finished

  /** A handshake message. `over` is the transcript that a Finished or a CertificateVerify is computed over,
      in place of the MAC or signature; `hasCert` tells whether a client's Certificate holds one. */
  datatype Msg = Msg(from: Role, kind: Kind, hasCert: bool, over: seq<Msg>)

  /** A record: a handshake message or a ChangeCipherSpec, under the sender's write keys number `epoch`. */
  datatype Item = Handshake(epoch: nat, msg: Msg) | ChangeCipherSpec(epoch: nat, from: Role)

  /** What the hello messages have settled for both, the kind of cipher, and what else decides which messages
      there are: whether the server wants a certificate, and whether the client has one. */
  datatype Flags = Flags(
    resume: bool, certAuth: bool, ecdhe: bool, pskHint: bool, status: bool, verifyPeer: bool, clientHasCert: bool,
    ticket: bool, npn: bool, channelId: bool) {

    /** A certificate is only requested in a full handshake with a cipher that uses certificates. */
    predicate CertRequest() {
      !resume && verifyPeer && certAuth
    }

    /** The server has key exchange parameters to send: always for an ephemeral key exchange, and for a
        pre-shared key when there is a hint to the client. */
    predicate KeyExchangeSent() {
      ecdhe || (!certAuth && pskHint)
    }
  }

  /** `ssl_hs_wait_t`. `Retry` stands for all the ways to wait for something other than the peer;
      `Unexpected` for an error that blames the order or the contents of the peer's messages, and `Failed`
      for any other. */
  datatype Wait =
    Proceed | ReadMessage | ReadChangeCipherSpec | Flush | Retry | EarlyReturn | Unexpected | Failed {

    /** The next call has to read something. */
    predicate ReadsNext() {
      ReadMessage? || ReadChangeCipherSpec?
    }

    /** The next call goes on right here. */
    predicate Suspended() {
      Retry? || EarlyReturn?
    }
  }

  /** What callbacks, keys and memory make of a step. */
  datatype Choice = Go | Hold | GiveUp

  datatype Core = Core(
    role: Role, wait: Wait, buf: seq<Msg>, pending: seq<Item>, transcript: seq<Msg>, readEpoch: nat, writeEpoch: nat,
    certRequest: bool, peerCert: bool, sentFinished: bool, checkedFinished: bool)

  function NewCore(role: Role): Core {
    Core(role, Proceed, [], [], [], 0, 0, false, false, false, false)
  }

  /** The result of a `do_` function. */
  datatype Out<S> = Out(state: S, core: Core, ret: Wait)

  // ----- reading and writing messages -----

  /** `ssl_hash_message` and `next_message`. */
  function Taken(c: Core): Core
    requires c.buf != []
  {
    c.(transcript := c.transcript + [c.buf[0]], buf := c.buf[1..])
  }

  /** Reading whatever message there is, which may have to wait before anything is consumed. */
  function ReadAny<S>(c: Core, here: S, choice: Choice, next: S): Out<S> {
    if c.buf == [] then Out(here, c, ReadMessage)
    else if choice.Hold? then Out(here, c, Retry)
    else if choice.GiveUp? then Out(here, c, Failed)
    else Out(next, Taken(c), Proceed)
  }

  /** A state that reads one message of one kind: `get_message`, `ssl_check_message_type`, and the rest. */
  function ReadOne<S>(c: Core, here: S, kind: Kind, choice: Choice, next: S): Out<S> {
    if c.buf != [] && c.buf[0].kind != kind then Out(here, c, Unexpected) else ReadAny(c, here, choice, next)
  }

  /** The same for a Finished or a CertificateVerify, which must be computed over our transcript. */
  function ReadVerified<S>(c: Core, here: S, kind: Kind, choice: Choice, next: S): Out<S> {
    if c.buf != [] && c.buf[0].kind == kind && c.buf[0].over != c.transcript then Out(here, c, Unexpected)
    else ReadOne(c, here, kind, choice, next)
  }

  function Plain(c: Core, kind: Kind): Msg {
    Msg(c.role, kind, false, [])
  }

  /** `ssl_add_message_cbb`. */
  function Sent(c: Core, m: Msg): Core {
    c.(pending := c.pending + [Handshake(c.writeEpoch, m)], transcript := c.transcript + [m])
  }

  function SentIf(c: Core, b: bool, kind: Kind): Core {
    if b then Sent(c, Plain(c, kind)) else c
  }

  /** `add_change_cipher_spec`, and the new write keys. */
  function Changed(c: Core): Core {
    c.(pending := c.pending + [ChangeCipherSpec(c.writeEpoch, c.role)], writeEpoch := c.writeEpoch + 1)
  }

  /** `ssl_send_finished`. */
  function SentFinished(c: Core): Core {
    Sent(c, Msg(c.role, Finished, false, c.transcript)).(sentFinished := true)
  }

  /** New read keys: an error when there is handshake data left. */
  function NewReadKeys<S>(c: Core, here: S, next: S): Out<S> {
    if c.buf != [] then Out(here, c, Unexpected) else Out(next, c.(readEpoch := c.readEpoch + 1), Proceed)
  }

  /** The message at hand, if it is a Finished or CertificateVerify, is over the transcript. */
  predicate Genuine(c: Core)
    requires c.buf != []
  {
    c.buf[0].kind.Finished? || c.buf[0].kind.CertificateVerify? ==> c.buf[0].over == c.transcript
  }

  // ----- the record layer below -----

  /** The next record, for a side that waits for a message or for a ChangeCipherSpec. It must be of that
      kind and under the current keys; and no message may still be at hand. */
  function Received(c: Core, i: Item): Core {
    if i.epoch != c.readEpoch || c.buf != [] then c.(wait := Unexpected)
    else if c.wait.ReadMessage? && i.Handshake? then c.(buf := [i.msg], wait := Proceed)
    else if c.wait.ReadChangeCipherSpec? && i.ChangeCipherSpec? then c.(wait := Proceed)
    else c.(wait := Unexpected)
  }

  /** `flush_flight`, of which the transport takes the first `n` records; once it has them all, it is asked
      whether they are on their way. */
  function Flushed(c: Core, n: nat, flushed: bool): Core
    requires n <= |c.pending|
  {
    c.(pending := c.pending[n..], wait := if n == |c.pending| && flushed then Proceed else Flush)
  }

  // ----- scripts -----

  datatype Act = Says(from: Role, kind: Kind) | Changes(from: Role)

  /** What is still to be said in a handshake, by both sides. */
  datatype Script = End | Then(act: Act, rest: Script)

  function OptionalSay(b: bool, from: Role, kind: Kind, rest: Script): Script {
    if b then Then(Says(from, kind), rest) else rest
  }

  function ActOf(i: Item): Act {
    if i.Handshake? then Says(i.msg.from, i.msg.kind) else Changes(i.from)
  }

  /** The items of a queue, and then the rest. */
  function Queued(q: seq<Item>, rest: Script): Script {
    if q == [] then rest else Then(ActOf(q[0]), Queued(q[1..], rest))
  }

  lemma {:induction false} QueuedJoin(a: seq<Item>, b: seq<Item>, rest: Script)
    ensures Queued(a + b, rest) == Queued(a, Queued(b, rest))
  {
    if a == [] {
      assert a + b == b;
    } else {
      assert (a + b)[1..] == a[1..] + b;
      QueuedJoin(a[1..], b, rest);
    }
  }

  // ----- queues -----

  /** The messages of a queue: what the transcript gains by it. */
  function Messages(q: seq<Item>): seq<Msg> {
    if q == [] then [] else (if q[0].Handshake? then [q[0].msg] else []) + Messages(q[1..])
  }

  /** How often the keys change in a queue. */
  function KeyChanges(q: seq<Item>): nat {
    if q == [] then 0 else (if q[0].Handshake? then 0 else 1) + KeyChanges(q[1..])
  }

  /** A message that the reader will find right, when its transcript is this one. */
  predicate BodyOk(fl: Flags, m: Msg, transcript: seq<Msg>) {
    && (m.kind.Finished? || m.kind.CertificateVerify? ==> m.over == transcript)
    && (m.kind.Certificate? && m.from.Client? ==> m.hasCert == fl.clientHasCert)
  }

  /** A queue from one side, for a reader with this transcript and these read keys. */
  predicate Proper(fl: Flags, q: seq<Item>, from: Role, transcript: seq<Msg>, epoch: nat) {
    q == [] ||
    (q[0].epoch == epoch &&
     if q[0].Handshake? then
       && q[0].msg.from == from && BodyOk(fl, q[0].msg, transcript)
       && Proper(fl, q[1..], from, transcript + [q[0].msg], epoch)
     else q[0].from == from && Proper(fl, q[1..], from, transcript, epoch + 1))
  }

  lemma {:induction false} MessagesJoin(a: seq<Item>, b: seq<Item>)
    ensures Messages(a + b) == Messages(a) + Messages(b) && KeyChanges(a + b) == KeyChanges(a) + KeyChanges(b)
  {
    if a == [] {
      assert a + b == b;
    } else {
      assert (a + b)[1..] == a[1..] + b;
      MessagesJoin(a[1..], b);
      var first := if a[0].Handshake? then [a[0].msg] else [];
      assert first + (Messages(a[1..]) + Messages(b)) == first + Messages(a[1..]) + Messages(b);
    }
  }

  lemma {:induction false} ProperJoin(fl: Flags, a: seq<Item>, b: seq<Item>, from: Role, transcript: seq<Msg>,
      epoch: nat)
    requires Proper(fl, a, from, transcript, epoch)
    requires Proper(fl, b, from, transcript + Messages(a), epoch + KeyChanges(a))
    ensures Proper(fl, a + b, from, transcript, epoch)
    decreases |a|
  {
    if a == [] {
      assert a + b == b && transcript + [] == transcript;
    } else {
      assert (a + b)[1..] == a[1..] + b;
      if a[0].Handshake? {
        assert transcript + ([a[0].msg] + Messages(a[1..])) == transcript + [a[0].msg] + Messages(a[1..]);
        ProperJoin(fl, a[1..], b, from, transcript + [a[0].msg], epoch);
      } else {
        assert [] + Messages(a[1..]) == Messages(a[1..]);
        ProperJoin(fl, a[1..], b, from, transcript, epoch + 1);
      }
    }
  }

  // ----- what a step does, whichever side takes it -----

  /** The step consumed the message at hand. */
  predicate Consumes(c: Core, script: Script, c': Core, script': Script) {
    && c.buf != [] && c'.buf == c.buf[1..] && c'.transcript == c.transcript + [c.buf[0]]
    && script == Then(Says(c.buf[0].from, c.buf[0].kind), script')
    && c'.pending == c.pending && c'.writeEpoch == c.writeEpoch
  }

  /** The step added these items to the flight. */
  predicate Sends(fl: Flags, c: Core, script: Script, c': Core, script': Script, items: seq<Item>) {
    && c'.buf == c.buf && c'.pending == c.pending + items
    && c'.transcript == c.transcript + Messages(items) && c'.writeEpoch == c.writeEpoch + KeyChanges(items)
    && Proper(fl, items, c.role, c.transcript, c.writeEpoch) && script == Queued(items, script')
  }

  /** The message at hand is the one the script has next. */
  predicate Expecting(fl: Flags, c: Core, script: Script) {
    c.buf != [] ==>
      && |c.buf| == 1 && script.Then? && script.act == Says(c.buf[0].from, c.buf[0].kind)
      && c.buf[0].from == Peer(c.role) && BodyOk(fl, c.buf[0], c.transcript)
  }

  /** A step that goes well: it consumes, or sends items, and the script advances by as much; or neither. */
  predicate Moves(fl: Flags, c: Core, script: Script, c': Core, script': Script, items: seq<Item>) {
    && c'.role == c.role && c'.wait == c.wait
    && (Consumes(c, script, c', script') || Sends(fl, c, script, c', script', items))
  }

  lemma SendsNothing(fl: Flags, c: Core, script: Script, c': Core)
    requires c'.buf == c.buf && c'.pending == c.pending && c'.transcript == c.transcript
             && c'.writeEpoch == c.writeEpoch
    ensures Sends(fl, c, script, c', script, [])
  {
    assert c.pending + [] == c.pending && c.transcript + [] == c.transcript;
  }

  lemma SendsOne(fl: Flags, c: Core, m: Msg, script': Script)
    requires m.from == c.role && BodyOk(fl, m, c.transcript)
    ensures Sends(fl, c, Then(Says(m.from, m.kind), script'), Sent(c, m), script', [Handshake(c.writeEpoch, m)])
  {
    var items := [Handshake(c.writeEpoch, m)];
    assert items[1..] == [];
    assert Messages(items) == [m] + Messages(items[1..]);
  }

  lemma SendsChange(fl: Flags, c: Core, script': Script)
    ensures Sends(fl, c, Then(Changes(c.role), script'), Changed(c), script', [ChangeCipherSpec(c.writeEpoch, c.role)])
  {
    var items := [ChangeCipherSpec(c.writeEpoch, c.role)];
    assert items[1..] == [];
    assert Messages(items) == [] + Messages(items[1..]);
    assert c.transcript + Messages(items) == c.transcript;
  }

  lemma SendsBoth(fl: Flags, c: Core, s: Script, c1: Core, s1: Script, c2: Core, s2: Script, a: seq<Item>, b: seq<Item>)
    requires c1.role == c.role && Sends(fl, c, s, c1, s1, a) && Sends(fl, c1, s1, c2, s2, b)
    ensures Sends(fl, c, s, c2, s2, a + b)
  {
    MessagesJoin(a, b);
    ProperJoin(fl, a, b, c.role, c.transcript, c.writeEpoch);
    QueuedJoin(a, b, s2);
    assert c.pending + a + b == c.pending + (a + b);
    assert c.transcript + Messages(a) + Messages(b) == c.transcript + (Messages(a) + Messages(b));
  }

  /** An optional message: one item or none. */
  lemma SendsIf(fl: Flags, c: Core, b: bool, kind: Kind, script': Script) returns (items: seq<Item>)
    requires !kind.Finished? && !kind.CertificateVerify? && (kind.Certificate? ==> c.role.Server?)
    ensures Sends(fl, c, OptionalSay(b, c.role, kind, script'), SentIf(c, b, kind), script', items)
  {
    if b {
      SendsOne(fl, c, Plain(c, kind), script');
      items := [Handshake(c.writeEpoch, Plain(c, kind))];
    } else {
      SendsNothing(fl, c, script', c);
      items := [];
    }
  }
}
