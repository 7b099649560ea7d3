/** The client's handshake machine, TLS 1.0 to 1.2. */
module ClientMachine {
  import opened HandshakeCore
  import opened HandshakeScript

  datatype State =
    | StartConnect | EnterEarlyData | ReadServerHello | ReadServerCertificate | ReadCertificateStatus
    | VerifyServerCertificate | ReadServerKeyExchange | ReadCertificateRequest | ReadServerHelloDone
    | SendClientCertificate | SendClientKeyExchange | SendClientCertificateVerify | SendClientFinished | FinishFlight
    | ReadSessionTicket | ProcessChangeCipherSpec | ReadServerFinished | FinishClientHandshake | Done

  // ----- the steps -----

  /** `do_read_server_hello`. */
  function DoReadServerHello(fl: Flags, c: Core, choice: Choice): Out<State> {
    ReadOne(c, ReadServerHello, ServerHello, choice, if fl.resume then ReadSessionTicket else ReadServerCertificate)
  }

  /** `do_read_server_certificate`. */
  function DoReadServerCertificate(fl: Flags, c: Core, choice: Choice): Out<State> {
    if !fl.certAuth then Out(ReadCertificateStatus, c, Proceed)
    else ReadOne(c, ReadServerCertificate, Certificate, choice, ReadCertificateStatus)
  }

  /** `do_read_certificate_status`: the server may have changed its mind about sending one. */
  function DoReadCertificateStatus(fl: Flags, c: Core, choice: Choice): Out<State> {
    if !fl.status then Out(VerifyServerCertificate, c, Proceed)
    else if c.buf == [] then Out(ReadCertificateStatus, c, ReadMessage)
    else if !c.buf[0].kind.CertificateStatus? then Out(VerifyServerCertificate, c, Proceed)
    else ReadOne(c, ReadCertificateStatus, CertificateStatus, choice, VerifyServerCertificate)
  }

  /** `do_verify_server_certificate`. */
  function DoVerifyServerCertificate(fl: Flags, c: Core, choice: Choice): Out<State> {
    if fl.certAuth && choice.Hold? then Out(VerifyServerCertificate, c, Retry)
    else if fl.certAuth && choice.GiveUp? then Out(VerifyServerCertificate, c, Failed)
    else Out(ReadServerKeyExchange, c, Proceed)
  }

  /** `do_read_server_key_exchange`: optional for pre-shared keys, and not allowed for plain RSA. */
  function DoReadServerKeyExchange(fl: Flags, c: Core, choice: Choice): Out<State> {
    if c.buf == [] then Out(ReadServerKeyExchange, c, ReadMessage)
    else if !c.buf[0].kind.ServerKeyExchange? then
      if fl.ecdhe then Out(ReadServerKeyExchange, c, Unexpected) else Out(ReadCertificateRequest, c, Proceed)
    else if !fl.ecdhe && fl.certAuth then Out(ReadServerKeyExchange, c, Unexpected)
    else ReadOne(c, ReadServerKeyExchange, ServerKeyExchange, choice, ReadCertificateRequest)
  }

  /** `do_read_certificate_request`. */
  function DoReadCertificateRequest(fl: Flags, c: Core, choice: Choice): Out<State> {
    if !fl.certAuth then Out(ReadServerHelloDone, c, Proceed)
    else if c.buf == [] then Out(ReadCertificateRequest, c, ReadMessage)
    else if c.buf[0].kind.ServerHelloDone? then Out(ReadServerHelloDone, c, Proceed)
    else
      var out := ReadOne(c, ReadCertificateRequest, CertificateRequest, choice, ReadServerHelloDone);
      if out.ret.Proceed? then out.(core := out.core.(certRequest := true)) else out
  }

  /** `do_send_client_certificate`. */
  function DoSendClientCertificate(fl: Flags, c: Core, choice: Choice): Out<State> {
    if !c.certRequest then Out(SendClientKeyExchange, c, Proceed)
    else if choice.Hold? then Out(SendClientCertificate, c, Retry)
    else if choice.GiveUp? then Out(SendClientCertificate, c, Failed)
    else Out(SendClientKeyExchange, Sent(c, Msg(c.role, Certificate, fl.clientHasCert, [])), Proceed)
  }

  /** `do_send_client_key_exchange`. */
  function DoSendClientKeyExchange(c: Core, choice: Choice): Out<State> {
    if choice.GiveUp? then Out(SendClientKeyExchange, c, Failed)
    else Out(SendClientCertificateVerify, Sent(c, Plain(c, ClientKeyExchange)), Proceed)
  }

  /** `do_send_client_certificate_verify`. */
  function DoSendClientCertificateVerify(fl: Flags, c: Core, choice: Choice): Out<State> {
    if !c.certRequest || !fl.clientHasCert then Out(SendClientFinished, c, Proceed)
    else if choice.Hold? then Out(SendClientCertificateVerify, c, Retry)
    else if choice.GiveUp? then Out(SendClientCertificateVerify, c, Failed)
    else Out(SendClientFinished, Sent(c, Msg(c.role, CertificateVerify, false, c.transcript)), Proceed)
  }

  /** `do_send_client_finished`: it waits for a Channel ID key first, before anything that cannot be done
      twice. */
  function DoSendClientFinished(fl: Flags, c: Core, choice: Choice): Out<State> {
    if fl.channelId && choice.Hold? then Out(SendClientFinished, c, Retry)
    else if choice.GiveUp? then Out(SendClientFinished, c, Failed)
    else
      Out(FinishFlight, SentFinished(SentIf(SentIf(Changed(c), fl.npn, NextProto), fl.channelId, ChannelId)), Flush)
  }

  /** `do_finish_flight`, with an early return for False Start, which takes an ephemeral key exchange. */
  function DoFinishFlight(fl: Flags, c: Core, choice: Choice): Out<State> {
    if fl.resume then Out(FinishClientHandshake, c, Proceed)
    else if choice.GiveUp? then Out(FinishFlight, c, Failed)
    else Out(ReadSessionTicket, c, if fl.ecdhe && choice.Hold? then EarlyReturn else Proceed)
  }

  /** `do_read_session_ticket`. */
  function DoReadSessionTicket(fl: Flags, c: Core, choice: Choice): Out<State> {
    if !fl.ticket then Out(ProcessChangeCipherSpec, c, ReadChangeCipherSpec)
    else
      var out := ReadOne(c, ReadSessionTicket, NewSessionTicket, choice, ProcessChangeCipherSpec);
      if out.ret.Proceed? then out.(ret := ReadChangeCipherSpec) else out
  }

  /** `do_read_server_finished`. */
  function DoReadServerFinished(fl: Flags, c: Core, choice: Choice): Out<State> {
    var next := if fl.resume then SendClientFinished else FinishClientHandshake;
    var out := ReadVerified(c, ReadServerFinished, Finished, choice, next);
    if out.ret.Proceed? then out.(core := out.core.(checkedFinished := true)) else out
  }

  /** The switch of `ssl_client_handshake`. */
  function Do(fl: Flags, st: State, c: Core, choice: Choice): Out<State> {
    match st
    case StartConnect =>
      if choice.GiveUp? then Out(st, c, Failed) else Out(EnterEarlyData, Sent(c, Plain(c, ClientHello)), Flush)
    case EnterEarlyData => Out(ReadServerHello, c, Proceed)
    case ReadServerHello => DoReadServerHello(fl, c, choice)
    case ReadServerCertificate => DoReadServerCertificate(fl, c, choice)
    case ReadCertificateStatus => DoReadCertificateStatus(fl, c, choice)
    case VerifyServerCertificate => DoVerifyServerCertificate(fl, c, choice)
    case ReadServerKeyExchange => DoReadServerKeyExchange(fl, c, choice)
    case ReadCertificateRequest => DoReadCertificateRequest(fl, c, choice)
    case ReadServerHelloDone => ReadOne(c, ReadServerHelloDone, ServerHelloDone, choice, SendClientCertificate)
    case SendClientCertificate => DoSendClientCertificate(fl, c, choice)
    case SendClientKeyExchange => DoSendClientKeyExchange(c, choice)
    case SendClientCertificateVerify => DoSendClientCertificateVerify(fl, c, choice)
    case SendClientFinished => DoSendClientFinished(fl, c, choice)
    case FinishFlight => DoFinishFlight(fl, c, choice)
    case ReadSessionTicket => DoReadSessionTicket(fl, c, choice)
    case ProcessChangeCipherSpec => NewReadKeys(c, st, ReadServerFinished)
    case ReadServerFinished => DoReadServerFinished(fl, c, choice)
    case FinishClientHandshake => if choice.GiveUp? then Out(st, c, Failed) else Out(Done, c, Proceed)
    case Done => Out(st, c, Proceed)
  }

  // ----- what is still to be said -----

  /** What is still to be said when the client is in this state. */
  function ScriptOf(fl: Flags, st: State, wait: Wait): Script {
    match st
    case StartConnect => WholeScript(fl)
    case EnterEarlyData => ServerHelloOn(fl)
    case ReadServerHello => ServerHelloOn(fl)
    case ReadServerCertificate => CertificateOn(fl)
    case ReadCertificateStatus => StatusOn(fl)
    case VerifyServerCertificate => ServerKeysOn(fl)
    case ReadServerKeyExchange => ServerKeysOn(fl)
    case ReadCertificateRequest => RequestOn(fl)
    case ReadServerHelloDone => HelloDoneOn(fl)
    case SendClientCertificate => ClientFlight(fl)
    case SendClientKeyExchange => KeyExchangeOn(fl)
    case SendClientCertificateVerify => VerifyOn(fl)
    case SendClientFinished => ClientEnds(fl, AfterClient(fl))
    case FinishFlight => AfterClient(fl)
    case ReadSessionTicket => ServerEnds(fl, AfterServer(fl))
    case ProcessChangeCipherSpec =>
      var finished := Then(Says(Server, Finished), AfterServer(fl));
      if wait.ReadChangeCipherSpec? then Then(Changes(Server), finished) else finished
    case ReadServerFinished => Then(Says(Server, Finished), AfterServer(fl))
    case FinishClientHandshake => End
    case Done => End
  }

  // ----- what holds in every state -----

  predicate FullOnly(st: State) {
    || st.ReadServerCertificate? || st.ReadCertificateStatus? || st.VerifyServerCertificate?
    || st.ReadServerKeyExchange?
    || st.ReadCertificateRequest? || st.ReadServerHelloDone? || st.SendClientCertificate? || st.SendClientKeyExchange?
    || st.SendClientCertificateVerify?
  }

  predicate BeforeRequest(st: State) {
    || st.StartConnect? || st.EnterEarlyData? || st.ReadServerHello? || st.ReadServerCertificate?
    || st.ReadCertificateStatus? || st.VerifyServerCertificate? || st.ReadServerKeyExchange?
    || st.ReadCertificateRequest?
  }

  /** The client is done only when it has sent its Finished and checked the server's; and it knows from
      the server's request, or its absence, whether to send a certificate. */
  predicate Facts(fl: Flags, st: State, c: Core) {
    && c.role.Client?
    && (FullOnly(st) ==> !fl.resume)
    && (st.FinishFlight? ==> c.sentFinished && (fl.resume ==> c.checkedFinished))
    && (st.ReadSessionTicket? || st.ProcessChangeCipherSpec? || st.ReadServerFinished? ==> !fl.resume ==>
         c.sentFinished)
    && (st.SendClientFinished? ==> fl.resume ==> c.checkedFinished)
    && (st.FinishClientHandshake? || st.Done? ==> c.sentFinished && c.checkedFinished)
    && (if BeforeRequest(st) then !c.certRequest else FullOnly(st) ==> c.certRequest == fl.CertRequest())
    && (st.ProcessChangeCipherSpec? ==> c.buf == [])
    && (!fl.resume && !st.FinishClientHandshake? && !st.Done? ==> !c.checkedFinished)
  }

  /** The state of an early return: our Finished is sent, the server's is not checked yet. */
  predicate FalseStart(fl: Flags, st: State, c: Core) {
    fl.ecdhe && !fl.resume && st.ReadSessionTicket? && c.sentFinished && !c.checkedFinished && c.pending == []
  }

  /** How many steps are still to be taken, at most. */
  function StepsLeft(fl: Flags, st: State): nat {
    match st
    case StartConnect => 18
    case EnterEarlyData => 17
    case ReadServerHello => 16
    case ReadServerCertificate => 15
    case ReadCertificateStatus => 14
    case VerifyServerCertificate => 13
    case ReadServerKeyExchange => 12
    case ReadCertificateRequest => 11
    case ReadServerHelloDone => 10
    case SendClientCertificate => 9
    case SendClientKeyExchange => 8
    case SendClientCertificateVerify => 7
    case SendClientFinished => if fl.resume then 3 else 6
    case FinishFlight => if fl.resume then 2 else 5
    case ReadSessionTicket => if fl.resume then 6 else 4
    case ProcessChangeCipherSpec => if fl.resume then 5 else 3
    case ReadServerFinished => if fl.resume then 4 else 2
    case FinishClientHandshake => 1
    case Done => 0
  }

  /** Where a step leaves off: it waits for a message that the server is to send, for its ChangeCipherSpec,
      for the flight to be sent, or for something else; and goes on otherwise. */
  predicate Rests(fl: Flags, st: State, c: Core, ret: Wait) {
    && !ret.Unexpected?
    && (ret.ReadMessage? ==> c.buf == [] && AwaitsMessage(ScriptOf(fl, st, ret), Server))
    && (ret.ReadChangeCipherSpec? ==> st.ProcessChangeCipherSpec? && c.buf == [])
    && (st.ProcessChangeCipherSpec? ==> ret.ReadChangeCipherSpec?)
  }

  predicate Sending(st: State) {
    || st.StartConnect? || st.SendClientCertificate? || st.SendClientKeyExchange? || st.SendClientCertificateVerify?
    || st.SendClientFinished?
  }

  /** A step that reads a message, or none. */
  predicate Reads(fl: Flags, c: Core, script: Script, out: Out<State>) {
    && !out.ret.Unexpected? && out.core.role == c.role && out.core.wait == c.wait
    && if out.core.buf == c.buf then
         out.core == c.(readEpoch := out.core.readEpoch) && ScriptOf(fl, out.state, out.ret) == script
       else Consumes(c, script, out.core, ScriptOf(fl, out.state, out.ret))
  }

  lemma ReadingMoves(fl: Flags, st: State, c: Core, choice: Choice)
    requires Facts(fl, st, c) && Expecting(fl, c, ScriptOf(fl, st, Proceed)) && !Sending(st)
    ensures Reads(fl, c, ScriptOf(fl, st, Proceed), Do(fl, st, c, choice))
  {
    if FullOnly(st) {
      FullReadingMoves(fl, st, c, choice);
    } else if st == ReadServerHello {
      ServerHelloMoves(fl, c, choice);
    } else if st == ReadSessionTicket {
      TicketMoves(fl, c, choice);
    } else if st == ReadServerFinished {
      ServerFinishedMoves(fl, c, choice);
    }
  }

  lemma ServerHelloMoves(fl: Flags, c: Core, choice: Choice)
    requires Expecting(fl, c, ScriptOf(fl, ReadServerHello, Proceed)) && c.role.Client?
    ensures Reads(fl, c, ScriptOf(fl, ReadServerHello, Proceed), Do(fl, ReadServerHello, c, choice))
  {
  }

  lemma TicketMoves(fl: Flags, c: Core, choice: Choice)
    requires Expecting(fl, c, ScriptOf(fl, ReadSessionTicket, Proceed)) && c.role.Client?
    ensures Reads(fl, c, ScriptOf(fl, ReadSessionTicket, Proceed), Do(fl, ReadSessionTicket, c, choice))
  {
  }

  lemma ServerFinishedMoves(fl: Flags, c: Core, choice: Choice)
    requires Expecting(fl, c, ScriptOf(fl, ReadServerFinished, Proceed)) && c.role.Client?
    ensures Reads(fl, c, ScriptOf(fl, ReadServerFinished, Proceed), Do(fl, ReadServerFinished, c, choice))
  {
    var out := Do(fl, ReadServerFinished, c, choice);
    if c.buf != [] {
      assert c.buf[0].kind.Finished? && c.buf[0].over == c.transcript;
      assert out == Out(ReadServerFinished, c, out.ret) || |out.core.buf| < |c.buf|;
    }
  }

  lemma FullReadingMoves(fl: Flags, st: State, c: Core, choice: Choice)
    requires Facts(fl, st, c) && Expecting(fl, c, ScriptOf(fl, st, Proceed)) && !Sending(st) && FullOnly(st)
    ensures Reads(fl, c, ScriptOf(fl, st, Proceed), Do(fl, st, c, choice))
  {
    if st == ReadServerCertificate {
      CertificateMoves(fl, c, choice);
    } else if st == ReadCertificateStatus {
      StatusMoves(fl, c, choice);
    } else if st == ReadServerKeyExchange {
      KeyExchangeMoves(fl, c, choice);
    } else if st == ReadCertificateRequest {
      RequestMoves(fl, c, choice);
    } else if st == ReadServerHelloDone {
      HelloDoneMoves(fl, c, choice);
    } else {
      VerifyMoves(fl, c, choice);
    }
  }

  lemma VerifyMoves(fl: Flags, c: Core, choice: Choice)
    requires c.role.Client?
    ensures Reads(fl, c, ScriptOf(fl, VerifyServerCertificate, Proceed), Do(fl, VerifyServerCertificate, c, choice))
  {
  }

  lemma CertificateMoves(fl: Flags, c: Core, choice: Choice)
    requires Expecting(fl, c, ScriptOf(fl, ReadServerCertificate, Proceed)) && c.role.Client?
    ensures Reads(fl, c, ScriptOf(fl, ReadServerCertificate, Proceed), Do(fl, ReadServerCertificate, c, choice))
  {
  }

  lemma StatusMoves(fl: Flags, c: Core, choice: Choice)
    requires Expecting(fl, c, ScriptOf(fl, ReadCertificateStatus, Proceed)) && c.role.Client?
    ensures Reads(fl, c, ScriptOf(fl, ReadCertificateStatus, Proceed), Do(fl, ReadCertificateStatus, c, choice))
  {
  }

  lemma KeyExchangeMoves(fl: Flags, c: Core, choice: Choice)
    requires Expecting(fl, c, ScriptOf(fl, ReadServerKeyExchange, Proceed)) && c.role.Client?
    ensures Reads(fl, c, ScriptOf(fl, ReadServerKeyExchange, Proceed), Do(fl, ReadServerKeyExchange, c, choice))
  {
  }

  lemma RequestMoves(fl: Flags, c: Core, choice: Choice)
    requires Expecting(fl, c, ScriptOf(fl, ReadCertificateRequest, Proceed)) && c.role.Client?
    ensures Reads(fl, c, ScriptOf(fl, ReadCertificateRequest, Proceed), Do(fl, ReadCertificateRequest, c, choice))
  {
  }

  lemma HelloDoneMoves(fl: Flags, c: Core, choice: Choice)
    requires Expecting(fl, c, ScriptOf(fl, ReadServerHelloDone, Proceed)) && c.role.Client?
    ensures Reads(fl, c, ScriptOf(fl, ReadServerHelloDone, Proceed), Do(fl, ReadServerHelloDone, c, choice))
  {
  }

  lemma FinishedMoves(fl: Flags, c: Core, rest: Script) returns (items: seq<Item>)
    requires c.role.Client?
    ensures Sends(fl, c, ClientEnds(fl, rest),
                  SentFinished(SentIf(SentIf(Changed(c), fl.npn, NextProto), fl.channelId, ChannelId)), rest, items)
  {
    var s3 := Then(Says(Client, Finished), rest);
    var s2 := OptionalSay(fl.channelId, Client, ChannelId, s3);
    var s1 := OptionalSay(fl.npn, Client, NextProto, s2);
    var c1 := Changed(c);
    var c2 := SentIf(c1, fl.npn, NextProto);
    var c3 := SentIf(c2, fl.channelId, ChannelId);
    SendsChange(fl, c, s1);
    var a := SendsIf(fl, c1, fl.npn, NextProto, s2);
    var b := SendsIf(fl, c2, fl.channelId, ChannelId, s3);
    var m := Msg(c3.role, Finished, false, c3.transcript);
    SendsOne(fl, c3, m, rest);
    var first := [ChangeCipherSpec(c.writeEpoch, c.role)];
    SendsBoth(fl, c, Then(Changes(Client), s1), c1, s1, c2, s2, first, a);
    SendsBoth(fl, c, Then(Changes(Client), s1), c2, s2, c3, s3, first + a, b);
    SendsBoth(fl, c, Then(Changes(Client), s1), c3, s3, Sent(c3, m), rest, first + a + b,
      [Handshake(c3.writeEpoch, m)]);
    items := first + a + b + [Handshake(c3.writeEpoch, m)];
  }

  lemma ClientEndMoves(fl: Flags, c: Core, choice: Choice) returns (items: seq<Item>)
    requires c.role.Client?
    ensures var out := Do(fl, SendClientFinished, c, choice);
            && Sends(fl, c, ScriptOf(fl, SendClientFinished, Proceed), out.core, ScriptOf(fl, out.state, out.ret),
                 items)
            && out.core.role == c.role && out.core.wait == c.wait
  {
    if Do(fl, SendClientFinished, c, choice).core == c {
      SendsNothing(fl, c, ScriptOf(fl, SendClientFinished, Proceed), c);
      items := [];
    } else {
      items := FinishedMoves(fl, c, AfterClient(fl));
    }
  }

  /** A step that sends messages, or none. */
  lemma SendingMoves(fl: Flags, st: State, c: Core, choice: Choice) returns (items: seq<Item>)
    requires Facts(fl, st, c) && Sending(st)
    ensures var out := Do(fl, st, c, choice);
            Sends(fl, c, ScriptOf(fl, st, Proceed), out.core, ScriptOf(fl, out.state, out.ret), items)
    ensures Do(fl, st, c, choice).core.role == c.role && Do(fl, st, c, choice).core.wait == c.wait
  {
    var out := Do(fl, st, c, choice);
    if st.SendClientFinished? {
      items := ClientEndMoves(fl, c, choice);
    } else if out.core == c {
      SendsNothing(fl, c, ScriptOf(fl, st, Proceed), c);
      items := [];
    } else {
      var m :=
        if st.StartConnect? then Plain(c, ClientHello)
        else if st.SendClientCertificate? then Msg(c.role, Certificate, fl.clientHasCert, [])
        else if st.SendClientKeyExchange? then Plain(c, ClientKeyExchange)
        else Msg(c.role, CertificateVerify, false, c.transcript);
      SendsOne(fl, c, m, ScriptOf(fl, out.state, out.ret));
      items := [Handshake(c.writeEpoch, m)];
      assert out.core == Sent(c, m);
    }
  }

  /** What else holds after a step. */
  lemma StepKeepsFacts(fl: Flags, st: State, c: Core, choice: Choice)
    requires Facts(fl, st, c) && Expecting(fl, c, ScriptOf(fl, st, Proceed))
    ensures var out := Do(fl, st, c, choice); Facts(fl, out.state, out.core)
  {
    if FullOnly(st) {
      FullStepKeepsFacts(fl, st, c, choice);
    } else if st.ReadSessionTicket? || st.ProcessChangeCipherSpec? || st.ReadServerFinished? {
      ServerEndKeepsFacts(fl, st, c, choice);
    } else {
      OtherKeepsFacts(fl, st, c, choice);
    }
  }

  lemma OtherKeepsFacts(fl: Flags, st: State, c: Core, choice: Choice)
    requires Facts(fl, st, c) && !FullOnly(st)
    requires !st.ReadSessionTicket? && !st.ProcessChangeCipherSpec? && !st.ReadServerFinished?
    ensures var out := Do(fl, st, c, choice); Facts(fl, out.state, out.core)
  {
  }

  lemma ServerEndKeepsFacts(fl: Flags, st: State, c: Core, choice: Choice)
    requires Facts(fl, st, c) && Expecting(fl, c, ScriptOf(fl, st, Proceed))
    requires st.ReadSessionTicket? || st.ProcessChangeCipherSpec? || st.ReadServerFinished?
    ensures var out := Do(fl, st, c, choice); Facts(fl, out.state, out.core)
  {
  }

  lemma FullStepKeepsFacts(fl: Flags, st: State, c: Core, choice: Choice)
    requires Facts(fl, st, c) && Expecting(fl, c, ScriptOf(fl, st, Proceed)) && FullOnly(st)
    ensures var out := Do(fl, st, c, choice); Facts(fl, out.state, out.core)
  {
    if st.ReadCertificateRequest? {
      RequestKeepsFacts(fl, c, choice);
    } else if BeforeRequest(st) {
      BeforeRequestKeepsFacts(fl, st, c, choice);
    } else if Sending(st) {
      SendingKeepsFacts(fl, st, c, choice);
    }
  }

  /** Where a step that sends goes. */
  lemma SendingGoesTo(fl: Flags, st: State, c: Core, choice: Choice)
    requires Facts(fl, st, c) && Sending(st)
    ensures var next := Do(fl, st, c, choice).state;
            && (Sending(next) || next.EnterEarlyData? || next.FinishFlight?) && (FullOnly(next) ==> !fl.resume)
            && ScriptOf(fl, next, Do(fl, st, c, choice).ret) == ScriptOf(fl, next, Proceed)
  {
  }

  lemma SendingKeepsFacts(fl: Flags, st: State, c: Core, choice: Choice)
    requires Facts(fl, st, c) && Sending(st)
    ensures var out := Do(fl, st, c, choice); Facts(fl, out.state, out.core)
  {
  }

  lemma BeforeRequestKeepsFacts(fl: Flags, st: State, c: Core, choice: Choice)
    requires Facts(fl, st, c) && FullOnly(st) && BeforeRequest(st) && !st.ReadCertificateRequest?
    ensures var out := Do(fl, st, c, choice); Facts(fl, out.state, out.core)
  {
  }

  lemma RequestKeepsFacts(fl: Flags, c: Core, choice: Choice)
    requires Facts(fl, ReadCertificateRequest, c) && Expecting(fl, c, RequestOn(fl))
    ensures var out := DoReadCertificateRequest(fl, c, choice); Facts(fl, out.state, out.core)
  {
  }

  /** Where a step leaves off. */
  lemma StepRests(fl: Flags, st: State, c: Core, choice: Choice)
    requires Facts(fl, st, c) && Expecting(fl, c, ScriptOf(fl, st, Proceed))
    ensures var out := Do(fl, st, c, choice); Rests(fl, out.state, out.core, out.ret)
  {
    if FullOnly(st) {
      FullStepRests(fl, st, c, choice);
    }
  }

  lemma FullStepRests(fl: Flags, st: State, c: Core, choice: Choice)
    requires Facts(fl, st, c) && Expecting(fl, c, ScriptOf(fl, st, Proceed)) && FullOnly(st)
    ensures var out := Do(fl, st, c, choice); Rests(fl, out.state, out.core, out.ret)
  {
  }

  /** How far a step gets: it stays where it is and waits, or comes closer to the end. */
  predicate Advances(fl: Flags, st: State, c: Core, out: Out<State>) {
    if out.state == st then
      out.core == c && !out.ret.Flush? && !out.ret.EarlyReturn? && (st.Done? || !out.ret.Proceed?)
    else StepsLeft(fl, out.state) < StepsLeft(fl, st)
  }

  lemma StepAdvances(fl: Flags, st: State, c: Core, choice: Choice)
    ensures Advances(fl, st, c, Do(fl, st, c, choice))
  {
    if FullOnly(st) {
      FullStepAdvances(fl, st, c, choice);
    } else if st == SendClientFinished {
      ClientEndAdvances(fl, c, choice);
    } else {
      OtherAdvances(fl, st, c, choice);
    }
  }

  lemma OtherAdvances(fl: Flags, st: State, c: Core, choice: Choice)
    requires !FullOnly(st) && st != SendClientFinished
    ensures Advances(fl, st, c, Do(fl, st, c, choice))
  {
  }

  lemma ClientEndAdvances(fl: Flags, c: Core, choice: Choice)
    ensures Advances(fl, SendClientFinished, c, Do(fl, SendClientFinished, c, choice))
  {
  }

  lemma FullStepAdvances(fl: Flags, st: State, c: Core, choice: Choice)
    requires FullOnly(st)
    ensures Advances(fl, st, c, Do(fl, st, c, choice))
  {
    if BeforeRequest(st) {
      BeforeRequestAdvances(fl, st, c, choice);
    } else {
      AfterRequestAdvances(fl, st, c, choice);
    }
  }

  lemma AfterRequestAdvances(fl: Flags, st: State, c: Core, choice: Choice)
    requires FullOnly(st) && !BeforeRequest(st)
    ensures Advances(fl, st, c, Do(fl, st, c, choice))
  {
    if st.SendClientCertificate? {
      CertificateAdvances(fl, c, choice);
    } else if st.SendClientCertificateVerify? {
      VerifyAdvances(fl, c, choice);
    }
  }

  lemma CertificateAdvances(fl: Flags, c: Core, choice: Choice)
    ensures Advances(fl, SendClientCertificate, c, DoSendClientCertificate(fl, c, choice))
  {
  }

  lemma VerifyAdvances(fl: Flags, c: Core, choice: Choice)
    ensures Advances(fl, SendClientCertificateVerify, c, DoSendClientCertificateVerify(fl, c, choice))
  {
  }

  lemma BeforeRequestAdvances(fl: Flags, st: State, c: Core, choice: Choice)
    requires FullOnly(st) && BeforeRequest(st)
    ensures Advances(fl, st, c, Do(fl, st, c, choice))
  {
  }

  /** Every step goes well when the message at hand, if there is one, is the next of the script. */
  lemma StepMoves(fl: Flags, st: State, c: Core, choice: Choice) returns (items: seq<Item>)
    requires Facts(fl, st, c) && Expecting(fl, c, ScriptOf(fl, st, Proceed))
    ensures var out := Do(fl, st, c, choice);
            Moves(fl, c, ScriptOf(fl, st, Proceed), out.core, ScriptOf(fl, out.state, out.ret), items)
  {
    if Sending(st) {
      items := SendingMoves(fl, st, c, choice);
    } else {
      ReadingMoves(fl, st, c, choice);
      items := [];
      var out := Do(fl, st, c, choice);
      if out.core.buf == c.buf {
        SendsNothing(fl, c, ScriptOf(fl, st, Proceed), out.core);
      }
    }
  }

  // ----- whatever the peer sends -----

  /** The kinds of message that the client takes in this state. */
  predicate MayTake(fl: Flags, st: State, kind: Kind) {
    match st
    case ReadServerHello => kind.ServerHello?
    case ReadServerCertificate => fl.certAuth && kind.Certificate?
    case ReadCertificateStatus => fl.status && kind.CertificateStatus?
    case ReadServerKeyExchange => kind.ServerKeyExchange? && (fl.ecdhe || !fl.certAuth)
    case ReadCertificateRequest => fl.certAuth && kind.CertificateRequest?
    case ReadServerHelloDone => kind.ServerHelloDone?
    case ReadSessionTicket => fl.ticket && kind.NewSessionTicket?
    case ReadServerFinished => kind.Finished?
    case _ => false
  }

  /** The client leaves the state without a message; it looks at the one at hand first, where there may be one
      of this kind or not. */
  predicate MayPass(fl: Flags, st: State, c: Core) {
    match st
    case EnterEarlyData => true
    case ReadServerCertificate => !fl.certAuth
    case ReadCertificateStatus => !fl.status || (c.buf != [] && !c.buf[0].kind.CertificateStatus?)
    case VerifyServerCertificate => true
    case ReadServerKeyExchange => !fl.ecdhe && c.buf != [] && !c.buf[0].kind.ServerKeyExchange?
    case ReadCertificateRequest => !fl.certAuth || (c.buf != [] && c.buf[0].kind.ServerHelloDone?)
    case FinishFlight => true
    case ReadSessionTicket => !fl.ticket
    case FinishClientHandshake => true
    case _ => false
  }

  /** Where it goes from a state in which it does not send. */
  function Following(fl: Flags, st: State): State {
    match st
    case EnterEarlyData => ReadServerHello
    case ReadServerHello => if fl.resume then ReadSessionTicket else ReadServerCertificate
    case ReadServerCertificate => ReadCertificateStatus
    case ReadCertificateStatus => VerifyServerCertificate
    case VerifyServerCertificate => ReadServerKeyExchange
    case ReadServerKeyExchange => ReadCertificateRequest
    case ReadCertificateRequest => ReadServerHelloDone
    case ReadServerHelloDone => SendClientCertificate
    case FinishFlight => if fl.resume then FinishClientHandshake else ReadSessionTicket
    case ReadSessionTicket => ProcessChangeCipherSpec
    case ReadServerFinished => if fl.resume then SendClientFinished else FinishClientHandshake
    case FinishClientHandshake => Done
    case _ => st
  }

  /** Whatever message is at hand, a step that does not send either stays, or passes on where it may, or takes
      the message: only one of a kind that belongs here, and a Finished only over the client's own transcript. */
  lemma TakesOnlyItsOwn(fl: Flags, st: State, c: Core, choice: Choice)
    requires !Sending(st) && !st.ProcessChangeCipherSpec? && !st.Done?
    ensures TakesRight(fl, st, c, Do(fl, st, c, choice))
  {
    if st.ReadServerFinished? {
      TakesFinished(fl, c, choice);
    } else if FullOnly(st) {
      FullTakesItsOwn(fl, st, c, choice);
    }
  }

  predicate TakesRight(fl: Flags, st: State, c: Core, out: Out<State>) {
    if out.state == st then Stays(fl, st, c, out)
    else
      && out.state == Following(fl, st) && GoesOn(st, out.ret)
      && if out.core == c then MayPass(fl, st, c) else TakesOne(fl, st, c, out.core)
  }

  /** It goes on at once, unless the key change is next, or an early return is possible. */
  predicate GoesOn(st: State, ret: Wait) {
    && (ret.ReadChangeCipherSpec? <==> st.ReadSessionTicket?)
    && (ret.Proceed? || ret.ReadChangeCipherSpec? || (st.FinishFlight? && ret.EarlyReturn?))
  }

  /** It waits for a message where it needs one, and else for something of its own, or fails; and exactly what
      does not belong here is unexpected. */
  predicate Stays(fl: Flags, st: State, c: Core, out: Out<State>) {
    && out.core == c && (out.ret.ReadMessage? || out.ret.Retry? || out.ret.Failed? || out.ret.Unexpected?)
    && (out.ret.ReadMessage? <==> c.buf == [] && !MayPass(fl, st, c))
    && (out.ret.ReadMessage? ==> Listens(fl, st))
    && (out.ret.Unexpected? <==>
          c.buf != [] && !MayPass(fl, st, c) && !(MayTake(fl, st, c.buf[0].kind) && Genuine(c)))
  }

  /** Where a message can be at hand. */
  predicate Listens(fl: Flags, st: State) {
    || st.ReadServerHello? || st.ReadServerCertificate? || st.ReadCertificateStatus? || st.VerifyServerCertificate?
    || st.ReadServerKeyExchange? || st.ReadCertificateRequest? || st.ReadServerHelloDone?
    || (st.ReadSessionTicket? && fl.ticket) || st.ReadServerFinished?
  }

  predicate TakesOne(fl: Flags, st: State, c: Core, c': Core) {
    && c.buf != [] && MayTake(fl, st, c.buf[0].kind) && Genuine(c)
    && c' == Taken(c).(certRequest := c'.certRequest, checkedFinished := c'.checkedFinished)
    && c'.certRequest == (c.certRequest || st.ReadCertificateRequest?)
    && c'.checkedFinished == (c.checkedFinished || st.ReadServerFinished?)
  }

  /** The server's Finished counts as checked only when one was at hand over the client's own transcript; any
      other is blamed on the server, and nothing has changed. */
  lemma CheckedIsGenuine(fl: Flags, st: State, c: Core, choice: Choice)
    ensures st.ReadServerFinished? && c.buf != [] && c.buf[0].kind.Finished? && c.buf[0].over != c.transcript ==>
              Do(fl, st, c, choice) == Out(st, c, Unexpected)
    ensures !c.checkedFinished && Do(fl, st, c, choice).core.checkedFinished ==>
              st.ReadServerFinished? && c.buf != [] && c.buf[0].kind.Finished? && c.buf[0].over == c.transcript
  {
  }

  /** The keys change only where no message is left over, which is the server's fault otherwise; and a server's
      certificate is passed only when its verification goes well. */
  lemma NothingSlipsThrough(fl: Flags, st: State, c: Core, choice: Choice)
    ensures Do(fl, st, c, choice).core.readEpoch != c.readEpoch ==>
              st.ProcessChangeCipherSpec? && c.buf == [] && Do(fl, st, c, choice).core.readEpoch == c.readEpoch + 1
    ensures st.ProcessChangeCipherSpec? && c.buf != [] ==> Do(fl, st, c, choice) == Out(st, c, Unexpected)
    ensures st.VerifyServerCertificate? && fl.certAuth && Do(fl, st, c, choice).state != st ==> choice.Go?
  {
    if FullOnly(st) {
      KeysStay(fl, st, c, choice);
    }
  }

  lemma KeysStay(fl: Flags, st: State, c: Core, choice: Choice)
    requires FullOnly(st)
    ensures Do(fl, st, c, choice).core.readEpoch == c.readEpoch
    ensures st.VerifyServerCertificate? && fl.certAuth && Do(fl, st, c, choice).state != st ==> choice.Go?
  {
  }

  lemma FullTakesItsOwn(fl: Flags, st: State, c: Core, choice: Choice)
    requires FullOnly(st) && !Sending(st)
    ensures TakesRight(fl, st, c, Do(fl, st, c, choice))
  {
  }

  lemma TakesFinished(fl: Flags, c: Core, choice: Choice)
    ensures TakesRight(fl, ReadServerFinished, c, Do(fl, ReadServerFinished, c, choice))
  {
  }

  // ----- keys and flights -----

  /** The number of the keys that the next record from the peer is under. */
  function Epoch(st: State, readEpoch: nat, wait: Wait): nat {
    readEpoch + if st.ProcessChangeCipherSpec? && !wait.ReadChangeCipherSpec? then 1 else 0
  }

  /** What is waited for matters only where it is the peer's change of keys. */
  lemma WaitAside(fl: Flags, st: State, readEpoch: nat, w: Wait, w': Wait)
    requires !w.ReadChangeCipherSpec? && !w'.ReadChangeCipherSpec?
    ensures ScriptOf(fl, st, w) == ScriptOf(fl, st, w') && Epoch(st, readEpoch, w) == Epoch(st, readEpoch, w')
  {
  }

  lemma ScriptAside(fl: Flags, st: State, w: Wait, w': Wait)
    requires !st.ProcessChangeCipherSpec?
    ensures ScriptOf(fl, st, w) == ScriptOf(fl, st, w')
  {
  }

  lemma StepKeepsEpoch(fl: Flags, st: State, c: Core, choice: Choice)
    ensures var out := Do(fl, st, c, choice);
              Epoch(out.state, out.core.readEpoch, out.ret) == Epoch(st, c.readEpoch, Proceed)
  {
    if FullOnly(st) {
      FullStepKeepsEpoch(fl, st, c, choice);
    }
  }

  lemma FullStepKeepsEpoch(fl: Flags, st: State, c: Core, choice: Choice)
    requires FullOnly(st)
    ensures var out := Do(fl, st, c, choice);
              Epoch(out.state, out.core.readEpoch, out.ret) == Epoch(st, c.readEpoch, Proceed)
  {
  }

  /** A flight is under way only while more is added to it, and until it is flushed. */
  predicate FlightSettled(st: State, pending: seq<Item>, wait: Wait) {
    wait.Flush? || pending == [] || st.SendClientKeyExchange? || st.SendClientCertificateVerify?
      || st.SendClientFinished?
  }

  lemma StepSettlesFlight(fl: Flags, st: State, c: Core, choice: Choice)
    requires FlightSettled(st, c.pending, Proceed)
    ensures var out := Do(fl, st, c, choice); FlightSettled(out.state, out.core.pending, out.ret)
  {
    if FullOnly(st) {
      FullStepSettlesFlight(fl, st, c, choice);
    }
  }

  /** A step asks for an early return only after the flight with the client's Finished. */
  lemma EarlyReturns(fl: Flags, st: State, c: Core, choice: Choice)
    requires Facts(fl, st, c) && FlightSettled(st, c.pending, Proceed)
    ensures var out := Do(fl, st, c, choice); out.ret.EarlyReturn? ==> FalseStart(fl, out.state, out.core)
  {
  }

  lemma FullStepSettlesFlight(fl: Flags, st: State, c: Core, choice: Choice)
    requires FlightSettled(st, c.pending, Proceed) && FullOnly(st)
    ensures var out := Do(fl, st, c, choice); FlightSettled(out.state, out.core.pending, out.ret)
  {
  }

  /** When nothing has to be waited for and nothing fails, a step goes on, or waits for the peer. */
  lemma GoGoesOn(fl: Flags, st: State, c: Core)
    ensures !Do(fl, st, c, Go).ret.Failed? && !Do(fl, st, c, Go).ret.Retry?
  {
    if FullOnly(st) {
      FullGoGoesOn(fl, st, c);
    }
  }

  lemma FullGoGoesOn(fl: Flags, st: State, c: Core)
    requires FullOnly(st)
    ensures !Do(fl, st, c, Go).ret.Failed? && !Do(fl, st, c, Go).ret.Retry?
  {
  }
}
