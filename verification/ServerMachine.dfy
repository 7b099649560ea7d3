/** The server's handshake machine, TLS 1.0 to 1.2. */
module ServerMachine {
  import opened HandshakeCore
  import opened HandshakeScript

  datatype State =
    | StartAccept | ReadClientHello | SelectCertificate | SelectParameters | SendServerHello | SendServerCertificate
    | SendServerKeyExchange | SendServerHelloDone | ReadClientCertificate | VerifyClientCertificate
    | ReadClientKeyExchange
    | ReadClientCertificateVerify | ReadClientChangeCipherSpec | ProcessChangeCipherSpec | ReadNextProto | ReadChannelId
    | ReadClientFinished | SendServerFinished | FinishServerHandshake | Done

  // ----- the steps -----

  /** `do_read_client_hello`: the message stays until the parameters are selected. */
  function DoReadClientHello(c: Core, choice: Choice): Out<State> {
    if c.buf == [] then Out(ReadClientHello, c, ReadMessage)
    else if !c.buf[0].kind.ClientHello? then Out(ReadClientHello, c, Unexpected)
    else if choice.Hold? then Out(ReadClientHello, c, Retry)
    else if choice.GiveUp? then Out(ReadClientHello, c, Failed)
    else Out(SelectCertificate, c, Proceed)
  }

  /** `do_select_certificate`. */
  function DoSelectCertificate(c: Core, choice: Choice): Out<State> {
    if c.buf == [] then Out(SelectCertificate, c, ReadMessage)
    else if choice.Hold? then Out(SelectCertificate, c, Retry)
    else if choice.GiveUp? then Out(SelectCertificate, c, Failed)
    else Out(SelectParameters, c, Proceed)
  }

  /** `do_send_server_hello`. */
  function DoSendServerHello(fl: Flags, c: Core, choice: Choice): Out<State> {
    if choice.GiveUp? then Out(SendServerHello, c, Failed)
    else Out(if fl.resume then SendServerFinished else SendServerCertificate, Sent(c, Plain(c, ServerHello)), Proceed)
  }

  /** `do_send_server_certificate`, with the OCSP response. */
  function DoSendServerCertificate(fl: Flags, c: Core, choice: Choice): Out<State> {
    if choice.GiveUp? then Out(SendServerCertificate, c, Failed)
    else
      Out(SendServerKeyExchange,
        SentIf(SentIf(c, fl.certAuth, Certificate), fl.certAuth && fl.status, CertificateStatus), Proceed)
  }

  /** `do_send_server_key_exchange`: the signature may have to wait, before anything is added. */
  function DoSendServerKeyExchange(fl: Flags, c: Core, choice: Choice): Out<State> {
    if !fl.KeyExchangeSent() then Out(SendServerHelloDone, c, Proceed)
    else if fl.certAuth && choice.Hold? then Out(SendServerKeyExchange, c, Retry)
    else if choice.GiveUp? then Out(SendServerKeyExchange, c, Failed)
    else Out(SendServerHelloDone, Sent(c, Plain(c, ServerKeyExchange)), Proceed)
  }

  /** `do_send_server_hello_done`, after the request for a certificate. */
  function DoSendServerHelloDone(fl: Flags, c: Core, choice: Choice): Out<State> {
    if choice.GiveUp? then Out(SendServerHelloDone, c, Failed)
    else
      var c1 := SentIf(c, fl.CertRequest(), CertificateRequest);
      Out(ReadClientCertificate, Sent(c1, Plain(c1, ServerHelloDone)), Flush)
  }

  /** `do_read_client_certificate`. */
  function DoReadClientCertificate(fl: Flags, c: Core, choice: Choice): Out<State> {
    if !fl.CertRequest() then Out(VerifyClientCertificate, c, Proceed)
    else
      var out := ReadOne(c, ReadClientCertificate, Certificate, choice, VerifyClientCertificate);
      if out.ret.Proceed? then out.(core := out.core.(peerCert := c.buf[0].hasCert)) else out
  }

  /** `do_verify_client_certificate`. */
  function DoVerifyClientCertificate(c: Core, choice: Choice): Out<State> {
    if c.peerCert && choice.Hold? then Out(VerifyClientCertificate, c, Retry)
    else if c.peerCert && choice.GiveUp? then Out(VerifyClientCertificate, c, Failed)
    else Out(ReadClientKeyExchange, c, Proceed)
  }

  /** `do_read_client_certificate_verify`: expected if and only if the client has sent a certificate. */
  function DoReadClientCertificateVerify(c: Core, choice: Choice): Out<State> {
    if !c.peerCert then Out(ReadClientChangeCipherSpec, c, Proceed)
    else ReadVerified(c, ReadClientCertificateVerify, CertificateVerify, choice, ReadClientChangeCipherSpec)
  }

  /** `do_read_next_proto`. */
  function DoReadNextProto(fl: Flags, c: Core, choice: Choice): Out<State> {
    if !fl.npn then Out(ReadChannelId, c, Proceed) else ReadOne(c, ReadNextProto, NextProto, choice, ReadChannelId)
  }

  /** `do_read_channel_id`. */
  function DoReadChannelId(fl: Flags, c: Core, choice: Choice): Out<State> {
    if !fl.channelId then Out(ReadClientFinished, c, Proceed)
    else ReadOne(c, ReadChannelId, ChannelId, choice, ReadClientFinished)
  }

  /** `do_read_client_finished`. */
  function DoReadClientFinished(fl: Flags, c: Core, choice: Choice): Out<State> {
    var next := if fl.resume then FinishServerHandshake else SendServerFinished;
    var out := ReadVerified(c, ReadClientFinished, Finished, choice, next);
    if out.ret.Proceed? then out.(core := out.core.(checkedFinished := true)) else out
  }

  /** `do_send_server_finished`, after the new ticket. */
  function DoSendServerFinished(fl: Flags, c: Core, choice: Choice): Out<State> {
    if choice.GiveUp? then Out(SendServerFinished, c, Failed)
    else
      Out(if fl.resume then ReadClientChangeCipherSpec else FinishServerHandshake,
          SentFinished(Changed(SentIf(c, fl.ticket, NewSessionTicket))), Flush)
  }

  /** The switch of `ssl_server_handshake`. */
  function Do(fl: Flags, st: State, c: Core, choice: Choice): Out<State> {
    match st
    case StartAccept => Out(ReadClientHello, c, Proceed)
    case ReadClientHello => DoReadClientHello(c, choice)
    case SelectCertificate => DoSelectCertificate(c, choice)
    case SelectParameters => ReadAny(c, st, choice, SendServerHello)
    case SendServerHello => DoSendServerHello(fl, c, choice)
    case SendServerCertificate => DoSendServerCertificate(fl, c, choice)
    case SendServerKeyExchange => DoSendServerKeyExchange(fl, c, choice)
    case SendServerHelloDone => DoSendServerHelloDone(fl, c, choice)
    case ReadClientCertificate => DoReadClientCertificate(fl, c, choice)
    case VerifyClientCertificate => DoVerifyClientCertificate(c, choice)
    case ReadClientKeyExchange => ReadOne(c, st, ClientKeyExchange, choice, ReadClientCertificateVerify)
    case ReadClientCertificateVerify => DoReadClientCertificateVerify(c, choice)
    case ReadClientChangeCipherSpec => Out(ProcessChangeCipherSpec, c, ReadChangeCipherSpec)
    case ProcessChangeCipherSpec => NewReadKeys(c, st, ReadNextProto)
    case ReadNextProto => DoReadNextProto(fl, c, choice)
    case ReadChannelId => DoReadChannelId(fl, c, choice)
    case ReadClientFinished => DoReadClientFinished(fl, c, choice)
    case SendServerFinished => DoSendServerFinished(fl, c, choice)
    case FinishServerHandshake => Out(Done, c, Proceed)
    case Done => Out(st, c, Proceed)
  }

  // ----- what is still to be said -----

  /** What is still to be said when the server is in this state. */
  function ScriptOf(fl: Flags, st: State, wait: Wait): Script {
    match st
    case StartAccept => WholeScript(fl)
    case ReadClientHello => WholeScript(fl)
    case SelectCertificate => WholeScript(fl)
    case SelectParameters => WholeScript(fl)
    case SendServerHello => ServerHelloOn(fl)
    case SendServerCertificate => CertificateOn(fl)
    case SendServerKeyExchange => ServerKeysOn(fl)
    case SendServerHelloDone => RequestOn(fl)
    case ReadClientCertificate => ClientFlight(fl)
    case VerifyClientCertificate => KeyExchangeOn(fl)
    case ReadClientKeyExchange => KeyExchangeOn(fl)
    case ReadClientCertificateVerify => VerifyOn(fl)
    case ReadClientChangeCipherSpec => ClientEnds(fl, AfterClient(fl))
    case ProcessChangeCipherSpec =>
      if wait.ReadChangeCipherSpec? then ClientEnds(fl, AfterClient(fl)) else NextProtoOn(fl, AfterClient(fl))
    case ReadNextProto => NextProtoOn(fl, AfterClient(fl))
    case ReadChannelId => ChannelIdOn(fl, AfterClient(fl))
    case ReadClientFinished => Then(Says(Client, Finished), AfterClient(fl))
    case SendServerFinished => ServerEnds(fl, AfterServer(fl))
    case FinishServerHandshake => End
    case Done => End
  }

  // ----- what holds in every state -----

  predicate FullOnly(st: State) {
    || st.SendServerCertificate? || st.SendServerKeyExchange? || st.SendServerHelloDone? || st.ReadClientCertificate?
    || st.VerifyClientCertificate? || st.ReadClientKeyExchange? || st.ReadClientCertificateVerify?
  }

  predicate BeforeCertificate(st: State) {
    || st.StartAccept? || st.ReadClientHello? || st.SelectCertificate? || st.SelectParameters? || st.SendServerHello?
    || st.SendServerCertificate? || st.SendServerKeyExchange? || st.SendServerHelloDone? || st.ReadClientCertificate?
  }

  predicate ClientEnding(st: State) {
    || st.ReadClientChangeCipherSpec? || st.ProcessChangeCipherSpec? || st.ReadNextProto? || st.ReadChannelId?
    || st.ReadClientFinished?
  }

  /** The server is done only when it has sent its Finished and checked the client's; and it knows from the
      client's Certificate whether to expect a CertificateVerify. */
  predicate Facts(fl: Flags, st: State, c: Core) {
    && c.role.Server?
    && (FullOnly(st) ==> !fl.resume)
    && (ClientEnding(st) ==> fl.resume ==> c.sentFinished)
    && (st.SendServerFinished? ==> !fl.resume ==> c.checkedFinished)
    && (st.FinishServerHandshake? || st.Done? ==> c.sentFinished && c.checkedFinished)
    && (if BeforeCertificate(st) then !c.peerCert
        else FullOnly(st) ==> c.peerCert == (fl.CertRequest() && fl.clientHasCert))
    && (st.ProcessChangeCipherSpec? ==> c.buf == [])
  }

  /** How many steps are still to be taken, at most. */
  function StepsLeft(fl: Flags, st: State): nat {
    match st
    case StartAccept => 19
    case ReadClientHello => 18
    case SelectCertificate => 17
    case SelectParameters => 16
    case SendServerHello => 15
    case SendServerCertificate => 14
    case SendServerKeyExchange => 13
    case SendServerHelloDone => 12
    case ReadClientCertificate => 11
    case VerifyClientCertificate => 10
    case ReadClientKeyExchange => 9
    case ReadClientCertificateVerify => 8
    case ReadClientChangeCipherSpec => 7
    case ProcessChangeCipherSpec => 6
    case ReadNextProto => 5
    case ReadChannelId => 4
    case ReadClientFinished => 3
    case SendServerFinished => if fl.resume then 8 else 2
    case FinishServerHandshake => 1
    case Done => 0
  }

  /** Where a step leaves off: it waits for a message that the client is to send, for its ChangeCipherSpec,
      for the flight to be sent, or for something else; and goes on otherwise. */
  predicate Rests(fl: Flags, st: State, c: Core, ret: Wait) {
    && !ret.Unexpected?
    && (ret.ReadMessage? ==> c.buf == [] && AwaitsMessage(ScriptOf(fl, st, ret), Client))
    && (ret.ReadChangeCipherSpec? ==> st.ProcessChangeCipherSpec? && c.buf == [])
    && (st.ProcessChangeCipherSpec? ==> ret.ReadChangeCipherSpec?)
  }

  predicate Sending(st: State) {
    || st.SendServerHello? || st.SendServerCertificate? || st.SendServerKeyExchange? || st.SendServerHelloDone?
    || st.SendServerFinished?
  }

  /** A step that reads a message, or none. */
  predicate Reads(fl: Flags, c: Core, script: Script, out: Out<State>) {
    && !out.ret.Unexpected? && out.core.role == c.role && out.core.wait == c.wait
    && if out.core.buf == c.buf then
         out.core == c.(readEpoch := out.core.readEpoch) && ScriptOf(fl, out.state, out.ret) == script
       else Consumes(c, script, out.core, ScriptOf(fl, out.state, out.ret))
  }

  lemma ReadingMoves(fl: Flags, st: State, c: Core, choice: Choice)
    requires Facts(fl, st, c) && Expecting(fl, c, ScriptOf(fl, st, Proceed)) && !Sending(st)
    ensures Reads(fl, c, ScriptOf(fl, st, Proceed), Do(fl, st, c, choice))
  {
    if st == ReadClientHello {
      ClientHelloMoves(fl, c, choice);
    } else if st == SelectParameters {
      SelectMoves(fl, c, choice);
    } else if st == ReadClientCertificate {
      ClientCertificateMoves(fl, c, choice);
    } else if st == ReadClientKeyExchange {
      ClientKeyExchangeMoves(fl, c, choice);
    } else if st == ReadClientCertificateVerify {
      ClientVerifyMoves(fl, c, choice);
    } else if st == ReadNextProto {
      NextProtoMoves(fl, c, choice);
    } else if st == ReadChannelId {
      ChannelIdMoves(fl, c, choice);
    } else if st == ReadClientFinished {
      ClientFinishedMoves(fl, c, choice);
    } else {
      OtherMoves(fl, st, c, choice);
    }
  }

  lemma ClientHelloMoves(fl: Flags, c: Core, choice: Choice)
    requires Facts(fl, ReadClientHello, c) && Expecting(fl, c, ScriptOf(fl, ReadClientHello, Proceed))
    ensures Reads(fl, c, ScriptOf(fl, ReadClientHello, Proceed), Do(fl, ReadClientHello, c, choice))
  {
  }

  lemma SelectMoves(fl: Flags, c: Core, choice: Choice)
    requires Facts(fl, SelectParameters, c) && Expecting(fl, c, ScriptOf(fl, SelectParameters, Proceed))
    ensures Reads(fl, c, ScriptOf(fl, SelectParameters, Proceed), Do(fl, SelectParameters, c, choice))
  {
  }

  lemma ClientCertificateMoves(fl: Flags, c: Core, choice: Choice)
    requires Facts(fl, ReadClientCertificate, c) && Expecting(fl, c, ScriptOf(fl, ReadClientCertificate, Proceed))
    ensures Reads(fl, c, ScriptOf(fl, ReadClientCertificate, Proceed), Do(fl, ReadClientCertificate, c, choice))
  {
  }

  lemma ClientKeyExchangeMoves(fl: Flags, c: Core, choice: Choice)
    requires Facts(fl, ReadClientKeyExchange, c) && Expecting(fl, c, ScriptOf(fl, ReadClientKeyExchange, Proceed))
    ensures Reads(fl, c, ScriptOf(fl, ReadClientKeyExchange, Proceed), Do(fl, ReadClientKeyExchange, c, choice))
  {
  }

  lemma ClientVerifyMoves(fl: Flags, c: Core, choice: Choice)
    requires Facts(fl, ReadClientCertificateVerify, c)
             && Expecting(fl, c, ScriptOf(fl, ReadClientCertificateVerify, Proceed))
    ensures Reads(fl, c, ScriptOf(fl, ReadClientCertificateVerify, Proceed),
              Do(fl, ReadClientCertificateVerify, c, choice))
  {
  }

  lemma NextProtoMoves(fl: Flags, c: Core, choice: Choice)
    requires Facts(fl, ReadNextProto, c) && Expecting(fl, c, ScriptOf(fl, ReadNextProto, Proceed))
    ensures Reads(fl, c, ScriptOf(fl, ReadNextProto, Proceed), Do(fl, ReadNextProto, c, choice))
  {
  }

  lemma ChannelIdMoves(fl: Flags, c: Core, choice: Choice)
    requires Facts(fl, ReadChannelId, c) && Expecting(fl, c, ScriptOf(fl, ReadChannelId, Proceed))
    ensures Reads(fl, c, ScriptOf(fl, ReadChannelId, Proceed), Do(fl, ReadChannelId, c, choice))
  {
  }

  lemma ClientFinishedMoves(fl: Flags, c: Core, choice: Choice)
    requires Facts(fl, ReadClientFinished, c) && Expecting(fl, c, ScriptOf(fl, ReadClientFinished, Proceed))
    ensures Reads(fl, c, ScriptOf(fl, ReadClientFinished, Proceed), Do(fl, ReadClientFinished, c, choice))
  {
    var out := Do(fl, ReadClientFinished, c, choice);
    if c.buf != [] {
      assert c.buf[0].kind.Finished? && c.buf[0].over == c.transcript;
      assert out == Out(ReadClientFinished, c, out.ret) || |out.core.buf| < |c.buf|;
    }
  }

  lemma OtherMoves(fl: Flags, st: State, c: Core, choice: Choice)
    requires Facts(fl, st, c) && Expecting(fl, c, ScriptOf(fl, st, Proceed))
    requires st.StartAccept? || st.SelectCertificate? || st.VerifyClientCertificate? || st.ReadClientChangeCipherSpec?
             || st.ProcessChangeCipherSpec? || st.FinishServerHandshake? || st.Done?
    ensures Reads(fl, c, ScriptOf(fl, st, Proceed), Do(fl, st, c, choice))
  {
  }

  lemma CertificatesMove(fl: Flags, c: Core) returns (items: seq<Item>)
    requires c.role.Server?
    ensures Sends(fl, c, CertificateOn(fl),
                  SentIf(SentIf(c, fl.certAuth, Certificate), fl.certAuth && fl.status, CertificateStatus),
                    ServerKeysOn(fl), items)
  {
    var c1 := SentIf(c, fl.certAuth, Certificate);
    var c2 := SentIf(c1, fl.certAuth && fl.status, CertificateStatus);
    var a := SendsIf(fl, c, fl.certAuth, Certificate, StatusOn(fl));
    var b := SendsIf(fl, c1, fl.certAuth && fl.status, CertificateStatus, ServerKeysOn(fl));
    SendsBoth(fl, c, CertificateOn(fl), c1, StatusOn(fl), c2, ServerKeysOn(fl), a, b);
    items := a + b;
  }

  lemma HelloDoneMoves(fl: Flags, c: Core) returns (items: seq<Item>)
    requires c.role.Server?
    ensures var c1 := SentIf(c, fl.CertRequest(), CertificateRequest);
            Sends(fl, c, RequestOn(fl), Sent(c1, Plain(c1, ServerHelloDone)), ClientFlight(fl), items)
  {
    var c1 := SentIf(c, fl.CertRequest(), CertificateRequest);
    var a := SendsIf(fl, c, fl.CertRequest(), CertificateRequest, HelloDoneOn(fl));
    var m := Plain(c1, ServerHelloDone);
    SendsOne(fl, c1, m, ClientFlight(fl));
    SendsBoth(fl, c, RequestOn(fl), c1, HelloDoneOn(fl), Sent(c1, m), ClientFlight(fl), a,
      [Handshake(c1.writeEpoch, m)]);
    items := a + [Handshake(c1.writeEpoch, m)];
  }

  lemma FinishedMoves(fl: Flags, c: Core, rest: Script) returns (items: seq<Item>)
    requires c.role.Server?
    ensures Sends(fl, c, ServerEnds(fl, rest), SentFinished(Changed(SentIf(c, fl.ticket, NewSessionTicket))), rest,
              items)
  {
    var s2 := Then(Says(Server, Finished), rest);
    var s1 := Then(Changes(Server), s2);
    var c1 := SentIf(c, fl.ticket, NewSessionTicket);
    var c2 := Changed(c1);
    var a := SendsIf(fl, c, fl.ticket, NewSessionTicket, s1);
    SendsChange(fl, c1, s2);
    var b := [ChangeCipherSpec(c1.writeEpoch, c1.role)];
    var m := Msg(c2.role, Finished, false, c2.transcript);
    SendsOne(fl, c2, m, rest);
    SendsBoth(fl, c, ServerEnds(fl, rest), c1, s1, c2, s2, a, b);
    SendsBoth(fl, c, ServerEnds(fl, rest), c2, s2, Sent(c2, m), rest, a + b, [Handshake(c2.writeEpoch, m)]);
    items := a + b + [Handshake(c2.writeEpoch, m)];
  }

  lemma ServerEndMoves(fl: Flags, c: Core, choice: Choice) returns (items: seq<Item>)
    requires c.role.Server? && Do(fl, SendServerFinished, c, choice).state != SendServerFinished
    ensures var out := Do(fl, SendServerFinished, c, choice);
            Sends(fl, c, ScriptOf(fl, SendServerFinished, Proceed), out.core, ScriptOf(fl, out.state, out.ret), items)
  {
    items := FinishedMoves(fl, c, AfterServer(fl));
  }

  /** A step that sends messages, or none. */
  lemma SendingMoves(fl: Flags, st: State, c: Core, choice: Choice) returns (items: seq<Item>)
    requires Facts(fl, st, c) && Sending(st)
    ensures var out := Do(fl, st, c, choice);
            Sends(fl, c, ScriptOf(fl, st, Proceed), out.core, ScriptOf(fl, out.state, out.ret), items)
    ensures Do(fl, st, c, choice).core.role == c.role && Do(fl, st, c, choice).core.wait == c.wait
  {
    var out := Do(fl, st, c, choice);
    if out.state == st || (st.SendServerKeyExchange? && !fl.KeyExchangeSent()) {
      SendsNothing(fl, c, ScriptOf(fl, st, Proceed), c);
      items := [];
    } else if st.SendServerCertificate? {
      items := CertificatesMove(fl, c);
    } else if st.SendServerHelloDone? {
      items := HelloDoneMoves(fl, c);
    } else if st.SendServerFinished? {
      items := ServerEndMoves(fl, c, choice);
    } else {
      items := OneMessageMoves(fl, st, c, choice);
    }
  }

  lemma OneMessageMoves(fl: Flags, st: State, c: Core, choice: Choice) returns (items: seq<Item>)
    requires Facts(fl, st, c) && Do(fl, st, c, choice).state != st
    requires st.SendServerHello? || (st.SendServerKeyExchange? && fl.KeyExchangeSent())
    ensures var out := Do(fl, st, c, choice);
            Sends(fl, c, ScriptOf(fl, st, Proceed), out.core, ScriptOf(fl, out.state, out.ret), items)
  {
    var out := Do(fl, st, c, choice);
    var m := Plain(c, if st.SendServerHello? then ServerHello else ServerKeyExchange);
    SendsOne(fl, c, m, ScriptOf(fl, out.state, out.ret));
    items := [Handshake(c.writeEpoch, m)];
    assert out.core == Sent(c, m);
  }

  /** What else holds after a step. */
  lemma StepKeepsFacts(fl: Flags, st: State, c: Core, choice: Choice)
    requires Facts(fl, st, c) && Expecting(fl, c, ScriptOf(fl, st, Proceed))
    ensures var out := Do(fl, st, c, choice); Facts(fl, out.state, out.core)
  {
    if FullOnly(st) {
      FullStepKeepsFacts(fl, st, c, choice);
    } else if ClientEnding(st) {
      ClientEndKeepsFacts(fl, st, c, choice);
    } else {
      OtherKeepsFacts(fl, st, c, choice);
    }
  }

  lemma OtherKeepsFacts(fl: Flags, st: State, c: Core, choice: Choice)
    requires Facts(fl, st, c) && !FullOnly(st) && !ClientEnding(st)
    ensures var out := Do(fl, st, c, choice); Facts(fl, out.state, out.core)
  {
  }

  lemma FullStepKeepsFacts(fl: Flags, st: State, c: Core, choice: Choice)
    requires Facts(fl, st, c) && Expecting(fl, c, ScriptOf(fl, st, Proceed)) && FullOnly(st)
    ensures var out := Do(fl, st, c, choice); Facts(fl, out.state, out.core)
  {
    if st.ReadClientCertificate? {
      CertificateKeepsFacts(fl, c, choice);
    } else if BeforeCertificate(st) {
      BeforeCertificateKeepsFacts(fl, st, c, choice);
    }
  }

  /** Where a step that sends goes. */
  lemma SendingGoesTo(fl: Flags, st: State, c: Core, choice: Choice)
    requires Facts(fl, st, c) && Sending(st)
    ensures var next := Do(fl, st, c, choice).state;
            && (Sending(next) || Resting(next)) && (FullOnly(next) ==> !fl.resume)
            && ScriptOf(fl, next, Do(fl, st, c, choice).ret) == ScriptOf(fl, next, Proceed)
            && Do(fl, st, c, choice).core.peerCert == c.peerCert
            && (BeforeCertificate(st) && !BeforeCertificate(next) ==> fl.resume)
  {
  }

  /** Where it stops to send. */
  predicate Resting(st: State) {
    st.ReadClientCertificate? || st.ReadClientChangeCipherSpec? || st.FinishServerHandshake?
  }

  lemma SendingKeepsFacts(fl: Flags, st: State, c: Core, choice: Choice)
    requires Facts(fl, st, c) && Sending(st)
    ensures var out := Do(fl, st, c, choice); Facts(fl, out.state, out.core)
  {
  }

  lemma CertificateKeepsFacts(fl: Flags, c: Core, choice: Choice)
    requires Facts(fl, ReadClientCertificate, c) && Expecting(fl, c, ClientFlight(fl))
    ensures var out := DoReadClientCertificate(fl, c, choice); Facts(fl, out.state, out.core)
  {
  }

  lemma BeforeCertificateKeepsFacts(fl: Flags, st: State, c: Core, choice: Choice)
    requires Facts(fl, st, c) && FullOnly(st) && BeforeCertificate(st) && !st.ReadClientCertificate?
    ensures var out := Do(fl, st, c, choice); Facts(fl, out.state, out.core)
  {
  }

  lemma ClientEndKeepsFacts(fl: Flags, st: State, c: Core, choice: Choice)
    requires Facts(fl, st, c) && Expecting(fl, c, ScriptOf(fl, st, Proceed)) && ClientEnding(st)
    ensures var out := Do(fl, st, c, choice); Facts(fl, out.state, out.core)
  {
    ClientEndReadKeepsFacts(fl, st, c, choice);
    assert st.ReadClientChangeCipherSpec? ==>
           ScriptOf(fl, st, Proceed) == Then(Changes(Client), NextProtoOn(fl, AfterClient(fl)));
  }

  lemma ClientEndReadKeepsFacts(fl: Flags, st: State, c: Core, choice: Choice)
    requires Facts(fl, st, c) && ClientEnding(st)
    ensures var out := Do(fl, st, c, choice);
              !st.ReadClientChangeCipherSpec? || c.buf == [] ==> Facts(fl, out.state, out.core)
  {
  }

  /** Where a step leaves off. */
  lemma StepRests(fl: Flags, st: State, c: Core, choice: Choice)
    requires Facts(fl, st, c) && Expecting(fl, c, ScriptOf(fl, st, Proceed))
    ensures var out := Do(fl, st, c, choice); Rests(fl, out.state, out.core, out.ret)
  {
    if FullOnly(st) {
      FullStepRests(fl, st, c, choice);
    } else if ClientEnding(st) {
      ClientEndRests(fl, st, c, choice);
    }
  }

  lemma FullStepRests(fl: Flags, st: State, c: Core, choice: Choice)
    requires Facts(fl, st, c) && Expecting(fl, c, ScriptOf(fl, st, Proceed)) && FullOnly(st)
    ensures var out := Do(fl, st, c, choice); Rests(fl, out.state, out.core, out.ret)
  {
  }

  lemma ClientEndRests(fl: Flags, st: State, c: Core, choice: Choice)
    requires Facts(fl, st, c) && Expecting(fl, c, ScriptOf(fl, st, Proceed)) && ClientEnding(st)
    ensures var out := Do(fl, st, c, choice); Rests(fl, out.state, out.core, out.ret)
  {
  }

  /** How far a step gets: it stays where it is and waits, or comes closer to the end. */
  predicate Advances(fl: Flags, st: State, c: Core, out: Out<State>) {
    if out.state == st then
      out.core == c && !out.ret.Flush? && !out.ret.EarlyReturn? && (st.Done? || !out.ret.Proceed?)
    else StepsLeft(fl, out.state) < StepsLeft(fl, st)
  }

  lemma StepAdvances(fl: Flags, st: State, c: Core, choice: Choice)
    ensures Advances(fl, st, c, Do(fl, st, c, choice))
  {
    if FullOnly(st) {
      FullStepAdvances(fl, st, c, choice);
    } else if ClientEnding(st) {
      ClientEndAdvances(fl, st, c, choice);
    } else if st == SendServerFinished {
      ServerEndAdvances(fl, c, choice);
    }
  }

  lemma ServerEndAdvances(fl: Flags, c: Core, choice: Choice)
    ensures Advances(fl, SendServerFinished, c, Do(fl, SendServerFinished, c, choice))
  {
  }

  lemma ClientEndAdvances(fl: Flags, st: State, c: Core, choice: Choice)
    requires ClientEnding(st)
    ensures Advances(fl, st, c, Do(fl, st, c, choice))
  {
  }

  lemma FullStepAdvances(fl: Flags, st: State, c: Core, choice: Choice)
    requires FullOnly(st)
    ensures Advances(fl, st, c, Do(fl, st, c, choice))
  {
  }

  /** Every step goes well when the message at hand, if there is one, is the next of the script. */
  lemma StepMoves(fl: Flags, st: State, c: Core, choice: Choice) returns (items: seq<Item>)
    requires Facts(fl, st, c) && Expecting(fl, c, ScriptOf(fl, st, Proceed))
    ensures var out := Do(fl, st, c, choice);
            Moves(fl, c, ScriptOf(fl, st, Proceed), out.core, ScriptOf(fl, out.state, out.ret), items)
  {
    if Sending(st) {
      items := SendingMoves(fl, st, c, choice);
    } else {
      ReadingMoves(fl, st, c, choice);
      items := [];
      var out := Do(fl, st, c, choice);
      if out.core.buf == c.buf {
        SendsNothing(fl, c, ScriptOf(fl, st, Proceed), out.core);
      }
    }
  }

  // ----- whatever the peer sends -----

  /** The kinds of message that the server takes in this state. */
  predicate MayTake(fl: Flags, st: State, c: Core, kind: Kind) {
    match st
    case SelectParameters => kind.ClientHello?
    case ReadClientCertificate => fl.CertRequest() && kind.Certificate?
    case ReadClientKeyExchange => kind.ClientKeyExchange?
    case ReadClientCertificateVerify => c.peerCert && kind.CertificateVerify?
    case ReadNextProto => fl.npn && kind.NextProto?
    case ReadChannelId => fl.channelId && kind.ChannelId?
    case ReadClientFinished => kind.Finished?
    case _ => false
  }

  /** The server leaves the state without taking a message; the ClientHello stays at hand for a while. */
  predicate MayPass(fl: Flags, st: State, c: Core) {
    match st
    case StartAccept => true
    case ReadClientHello => c.buf != [] && c.buf[0].kind.ClientHello?
    case SelectCertificate => c.buf != []
    case ReadClientCertificate => !fl.CertRequest()
    case VerifyClientCertificate => true
    case ReadClientCertificateVerify => !c.peerCert
    case ReadClientChangeCipherSpec => true
    case ReadNextProto => !fl.npn
    case ReadChannelId => !fl.channelId
    case FinishServerHandshake => true
    case _ => false
  }

  /** Where it goes from a state in which it does not send. */
  function Following(fl: Flags, st: State): State {
    match st
    case StartAccept => ReadClientHello
    case ReadClientHello => SelectCertificate
    case SelectCertificate => SelectParameters
    case SelectParameters => SendServerHello
    case ReadClientCertificate => VerifyClientCertificate
    case VerifyClientCertificate => ReadClientKeyExchange
    case ReadClientKeyExchange => ReadClientCertificateVerify
    case ReadClientCertificateVerify => ReadClientChangeCipherSpec
    case ReadClientChangeCipherSpec => ProcessChangeCipherSpec
    case ReadNextProto => ReadChannelId
    case ReadChannelId => ReadClientFinished
    case ReadClientFinished => if fl.resume then FinishServerHandshake else SendServerFinished
    case FinishServerHandshake => Done
    case _ => st
  }

  /** Until its parameters are selected, it is the ClientHello that is at hand. */
  predicate HelloAtHand(st: State, c: Core) {
    st.SelectCertificate? || st.SelectParameters? ==> c.buf != [] && c.buf[0].kind.ClientHello?
  }

  /** Whatever message is at hand, a step that does not send either stays, or passes on where it may, or takes
      the message: only one of a kind that belongs here, and a Finished or CertificateVerify only over the
      server's own transcript. */
  lemma TakesOnlyItsOwn(fl: Flags, st: State, c: Core, choice: Choice)
    requires !Sending(st) && !st.ProcessChangeCipherSpec? && !st.Done? && HelloAtHand(st, c)
    ensures TakesRight(fl, st, c, Do(fl, st, c, choice))
  {
    if st.ReadClientFinished? {
      TakesFinished(fl, c, choice);
    } else if st.ReadClientCertificate? {
      TakesCertificate(fl, c, choice);
    } else if st.ReadClientCertificateVerify? {
      TakesVerify(fl, c, choice);
    }
  }

  predicate TakesRight(fl: Flags, st: State, c: Core, out: Out<State>) {
    if out.state == st then Stays(fl, st, c, out)
    else
      && out.state == Following(fl, st) && GoesOn(st, out.ret)
      && if out.core == c then MayPass(fl, st, c) else TakesOne(fl, st, c, out.core)
  }

  /** It goes on at once, unless the key change is next. */
  predicate GoesOn(st: State, ret: Wait) {
    if st.ReadClientChangeCipherSpec? then ret.ReadChangeCipherSpec? else ret.Proceed?
  }

  /** It waits for a message where it needs one, and else for something of its own, or fails; and exactly what
      does not belong here is unexpected. */
  predicate Stays(fl: Flags, st: State, c: Core, out: Out<State>) {
    && out.core == c && (out.ret.ReadMessage? || out.ret.Retry? || out.ret.Failed? || out.ret.Unexpected?)
    && (out.ret.ReadMessage? <==> c.buf == [] && !MayPass(fl, st, c))
    && (out.ret.ReadMessage? ==> Listens(fl, st, c))
    && (out.ret.Unexpected? <==>
          c.buf != [] && !MayPass(fl, st, c) && !(MayTake(fl, st, c, c.buf[0].kind) && Genuine(c)))
  }

  /** Where a message can be at hand. */
  predicate Listens(fl: Flags, st: State, c: Core) {
    || st.ReadClientHello? || st.SelectCertificate? || st.SelectParameters?
    || (st.ReadClientCertificate? && fl.CertRequest()) || st.ReadClientKeyExchange?
    || (st.ReadClientCertificateVerify? && c.peerCert) || (st.ReadNextProto? && fl.npn)
    || (st.ReadChannelId? && fl.channelId) || st.ReadClientFinished?
  }

  predicate TakesOne(fl: Flags, st: State, c: Core, c': Core) {
    && c.buf != [] && MayTake(fl, st, c, c.buf[0].kind) && Genuine(c)
    && c' == Taken(c).(peerCert := c'.peerCert, checkedFinished := c'.checkedFinished)
    && c'.peerCert == (if st.ReadClientCertificate? then c.buf[0].hasCert else c.peerCert)
    && c'.checkedFinished == (c.checkedFinished || st.ReadClientFinished?)
  }

  lemma TakesCertificate(fl: Flags, c: Core, choice: Choice)
    ensures TakesRight(fl, ReadClientCertificate, c, Do(fl, ReadClientCertificate, c, choice))
  {
  }

  lemma TakesVerify(fl: Flags, c: Core, choice: Choice)
    ensures TakesRight(fl, ReadClientCertificateVerify, c, Do(fl, ReadClientCertificateVerify, c, choice))
  {
  }

  lemma TakesFinished(fl: Flags, c: Core, choice: Choice)
    ensures TakesRight(fl, ReadClientFinished, c, Do(fl, ReadClientFinished, c, choice))
  {
  }

  /** The client's Finished counts as checked only when one was at hand over the server's own transcript, and a
      client that has shown a certificate gets no further without a CertificateVerify over it; any other is
      blamed on the client, and nothing has changed. */
  lemma CheckedIsGenuine(fl: Flags, st: State, c: Core, choice: Choice)
    ensures c.buf != [] && c.buf[0].over != c.transcript ==>
              (st.ReadClientFinished? && c.buf[0].kind.Finished?) ||
              (st.ReadClientCertificateVerify? && c.peerCert && c.buf[0].kind.CertificateVerify?) ==>
                Do(fl, st, c, choice) == Out(st, c, Unexpected)
    ensures !c.checkedFinished && Do(fl, st, c, choice).core.checkedFinished ==>
              st.ReadClientFinished? && c.buf != [] && c.buf[0].kind.Finished? && c.buf[0].over == c.transcript
    ensures st.ReadClientCertificateVerify? && c.peerCert && Do(fl, st, c, choice).state != st ==>
              c.buf != [] && c.buf[0].kind.CertificateVerify? && c.buf[0].over == c.transcript
  {
  }

  /** The keys change only where no message is left over, which is the client's fault otherwise; and a client's
      certificate is passed only when its verification goes well. */
  lemma NothingSlipsThrough(fl: Flags, st: State, c: Core, choice: Choice)
    ensures Do(fl, st, c, choice).core.readEpoch != c.readEpoch ==>
              st.ProcessChangeCipherSpec? && c.buf == [] && Do(fl, st, c, choice).core.readEpoch == c.readEpoch + 1
    ensures st.ProcessChangeCipherSpec? && c.buf != [] ==> Do(fl, st, c, choice) == Out(st, c, Unexpected)
    ensures st.VerifyClientCertificate? && c.peerCert && Do(fl, st, c, choice).state != st ==> choice.Go?
  {
    if FullOnly(st) {
      KeysStay(fl, st, c, choice);
    }
  }

  lemma KeysStay(fl: Flags, st: State, c: Core, choice: Choice)
    requires FullOnly(st)
    ensures Do(fl, st, c, choice).core.readEpoch == c.readEpoch
    ensures st.VerifyClientCertificate? && c.peerCert && Do(fl, st, c, choice).state != st ==> choice.Go?
  {
  }

  // ----- keys and flights -----

  /** The number of the keys that the next record from the peer is under. */
  function Epoch(st: State, readEpoch: nat, wait: Wait): nat {
    readEpoch + if st.ProcessChangeCipherSpec? && !wait.ReadChangeCipherSpec? then 1 else 0
  }

  /** What is waited for matters only where it is the peer's change of keys. */
  lemma WaitAside(fl: Flags, st: State, readEpoch: nat, w: Wait, w': Wait)
    requires !w.ReadChangeCipherSpec? && !w'.ReadChangeCipherSpec?
    ensures ScriptOf(fl, st, w) == ScriptOf(fl, st, w') && Epoch(st, readEpoch, w) == Epoch(st, readEpoch, w')
  {
  }

  lemma ScriptAside(fl: Flags, st: State, w: Wait, w': Wait)
    requires !st.ProcessChangeCipherSpec?
    ensures ScriptOf(fl, st, w) == ScriptOf(fl, st, w')
  {
  }

  lemma StepKeepsEpoch(fl: Flags, st: State, c: Core, choice: Choice)
    ensures var out := Do(fl, st, c, choice);
              Epoch(out.state, out.core.readEpoch, out.ret) == Epoch(st, c.readEpoch, Proceed)
  {
    if FullOnly(st) {
      FullStepKeepsEpoch(fl, st, c, choice);
    }
  }

  lemma FullStepKeepsEpoch(fl: Flags, st: State, c: Core, choice: Choice)
    requires FullOnly(st)
    ensures var out := Do(fl, st, c, choice);
              Epoch(out.state, out.core.readEpoch, out.ret) == Epoch(st, c.readEpoch, Proceed)
  {
  }

  /** A flight is under way only while more is added to it, and until it is flushed. */
  predicate FlightSettled(st: State, pending: seq<Item>, wait: Wait) {
    wait.Flush? || pending == [] || st.SendServerCertificate? || st.SendServerKeyExchange? || st.SendServerHelloDone?
      || st.SendServerFinished?
  }

  lemma StepSettlesFlight(fl: Flags, st: State, c: Core, choice: Choice)
    requires FlightSettled(st, c.pending, Proceed)
    ensures var out := Do(fl, st, c, choice); FlightSettled(out.state, out.core.pending, out.ret)
  {
    if FullOnly(st) {
      FullStepSettlesFlight(fl, st, c, choice);
    }
  }

  lemma NeverReturnsEarly(fl: Flags, st: State, c: Core, choice: Choice)
    ensures !Do(fl, st, c, choice).ret.EarlyReturn?
  {
  }

  lemma FullStepSettlesFlight(fl: Flags, st: State, c: Core, choice: Choice)
    requires FlightSettled(st, c.pending, Proceed) && FullOnly(st)
    ensures var out := Do(fl, st, c, choice); FlightSettled(out.state, out.core.pending, out.ret)
  {
  }

  /** When nothing has to be waited for and nothing fails, a step goes on, or waits for the peer. */
  lemma GoGoesOn(fl: Flags, st: State, c: Core)
    ensures !Do(fl, st, c, Go).ret.Failed? && !Do(fl, st, c, Go).ret.Retry?
  {
    if FullOnly(st) {
      FullGoGoesOn(fl, st, c);
    }
  }

  lemma FullGoGoesOn(fl: Flags, st: State, c: Core)
    requires FullOnly(st)
    ensures !Do(fl, st, c, Go).ret.Failed? && !Do(fl, st, c, Go).ret.Retry?
  {
  }
}
