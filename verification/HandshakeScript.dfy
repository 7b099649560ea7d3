/** The order of the messages in a handshake, as the negotiated flags determine it. */
module HandshakeScript {
  import opened HandshakeCore

  function ServerEnds(fl: Flags, rest: Script): Script {
    OptionalSay(fl.ticket, Server, NewSessionTicket, Then(Changes(Server), Then(Says(Server, Finished), rest)))
  }

  function ChannelIdOn(fl: Flags, rest: Script): Script {
    OptionalSay(fl.channelId, Client, ChannelId, Then(Says(Client, Finished), rest))
  }

  function NextProtoOn(fl: Flags, rest: Script): Script {
    OptionalSay(fl.npn, Client, NextProto, ChannelIdOn(fl, rest))
  }

  function ClientEnds(fl: Flags, rest: Script): Script {
    Then(Changes(Client), NextProtoOn(fl, rest))
  }

  /** What follows the client's Finished, and what follows the server's. */
  function AfterClient(fl: Flags): Script {
    if fl.resume then End else ServerEnds(fl, End)
  }

  function AfterServer(fl: Flags): Script {
    if fl.resume then ClientEnds(fl, End) else End
  }

  function ClientFlight(fl: Flags): Script {
    OptionalSay(fl.CertRequest(), Client, Certificate, KeyExchangeOn(fl))
  }

  function KeyExchangeOn(fl: Flags): Script {
    Then(Says(Client, ClientKeyExchange), VerifyOn(fl))
  }

  function VerifyOn(fl: Flags): Script {
    OptionalSay(fl.CertRequest() && fl.clientHasCert, Client, CertificateVerify, ClientEnds(fl, AfterClient(fl)))
  }

  function HelloDoneOn(fl: Flags): Script {
    Then(Says(Server, ServerHelloDone), ClientFlight(fl))
  }

  function RequestOn(fl: Flags): Script {
    OptionalSay(fl.CertRequest(), Server, CertificateRequest, HelloDoneOn(fl))
  }

  function ServerKeysOn(fl: Flags): Script {
    OptionalSay(fl.KeyExchangeSent(), Server, ServerKeyExchange, RequestOn(fl))
  }

  function StatusOn(fl: Flags): Script {
    OptionalSay(fl.certAuth && fl.status, Server, CertificateStatus, ServerKeysOn(fl))
  }

  function CertificateOn(fl: Flags): Script {
    OptionalSay(fl.certAuth, Server, Certificate, StatusOn(fl))
  }

  function ServerHelloOn(fl: Flags): Script {
    Then(Says(Server, ServerHello), if fl.resume then ServerEnds(fl, AfterServer(fl)) else CertificateOn(fl))
  }

  /** The whole handshake. */
  function WholeScript(fl: Flags): Script {
    Then(Says(Client, ClientHello), ServerHelloOn(fl))
  }

  /** The script has a message of this side next. */
  predicate AwaitsMessage(s: Script, from: Role) {
    s.Then? && s.act.Says? && s.act.from == from
  }

  // ----- the order in the standards -----

  /** A full handshake with all that can be in it: figure 1 of RFC 5246, the status of section 8 of RFC 6066, the
      ticket of figure 1 of RFC 5077, and before the client's Finished the next protocol and the Channel ID. */
  function FullOrder(): Script {
    Then(Says(Client, ClientHello), Then(Says(Server, ServerHello), Then(Says(Server, Certificate),
    Then(Says(Server, CertificateStatus), Then(Says(Server, ServerKeyExchange), Then(Says(Server, CertificateRequest),
    Then(Says(Server, ServerHelloDone), Then(Says(Client, Certificate), Then(Says(Client, ClientKeyExchange),
    Then(Says(Client, CertificateVerify), ClientLast(ServerLast(End))))))))))))
  }

  /** The same for a resumed session: figure 2 of RFC 5246 with the ticket of figure 2 of RFC 5077. */
  function ResumedOrder(): Script {
    Then(Says(Client, ClientHello), Then(Says(Server, ServerHello), ServerLast(ClientLast(End))))
  }

  function ClientLast(rest: Script): Script {
    Then(Changes(Client), Then(Says(Client, NextProto),
      Then(Says(Client, ChannelId), Then(Says(Client, Finished), rest))))
  }

  function ServerLast(rest: Script): Script {
    Then(Says(Server, NewSessionTicket), Then(Changes(Server), Then(Says(Server, Finished), rest)))
  }

  /** Which of them there are. */
  predicate Present(fl: Flags, act: Act) {
    match act
    case Changes(_) => true
    case Says(from, kind) =>
      match kind
      case Certificate => fl.certAuth && (from.Server? || fl.verifyPeer)
      case CertificateStatus => fl.certAuth && fl.status
      case ServerKeyExchange => fl.ecdhe || (!fl.certAuth && fl.pskHint)
      case CertificateRequest => fl.certAuth && fl.verifyPeer
      case CertificateVerify => fl.certAuth && fl.verifyPeer && fl.clientHasCert
      case NewSessionTicket => fl.ticket
      case NextProto => fl.npn
      case ChannelId => fl.channelId
      case _ => true
  }

  function Only(fl: Flags, s: Script): Script {
    if s.End? then End else if Present(fl, s.act) then Then(s.act, Only(fl, s.rest)) else Only(fl, s.rest)
  }

  lemma OnlyOptional(fl: Flags, from: Role, kind: Kind, rest: Script)
    ensures Only(fl, Then(Says(from, kind), rest)) ==
            OptionalSay(Present(fl, Says(from, kind)), from, kind, Only(fl, rest))
  {
  }

  lemma OnlyClientLast(fl: Flags, rest: Script)
    ensures Only(fl, ClientLast(rest)) == ClientEnds(fl, Only(fl, rest))
  {
    var end := Then(Says(Client, Finished), rest);
    OnlyOptional(fl, Client, NextProto, Then(Says(Client, ChannelId), end));
    OnlyOptional(fl, Client, ChannelId, end);
    OnlyOptional(fl, Client, Finished, rest);
  }

  lemma OnlyServerLast(fl: Flags, rest: Script)
    ensures Only(fl, ServerLast(rest)) == ServerEnds(fl, Only(fl, rest))
  {
    var end := Then(Says(Server, Finished), rest);
    OnlyOptional(fl, Server, NewSessionTicket, Then(Changes(Server), end));
    OnlyOptional(fl, Server, Finished, rest);
  }

  /** Every handshake has the messages and key changes that are present, in the order of the standards. */
  lemma OrderOfMessages(fl: Flags)
    ensures WholeScript(fl) == Only(fl, if fl.resume then ResumedOrder() else FullOrder())
  {
    if fl.resume {
      OnlyServerLast(fl, ClientLast(End));
      OnlyClientLast(fl, End);
      OnlyOptional(fl, Server, ServerHello, ServerLast(ClientLast(End)));
    } else {
      OnlyServerLast(fl, End);
      OnlyClientLast(fl, ServerLast(End));
      var s := Then(Says(Client, CertificateVerify), ClientLast(ServerLast(End)));
      OnlyOptional(fl, Client, CertificateVerify, s.rest);
      OnlyOptional(fl, Client, ClientKeyExchange, s);
      s := Then(Says(Client, ClientKeyExchange), s);
      OnlyOptional(fl, Client, Certificate, s);
      s := Then(Says(Client, Certificate), s);
      OnlyServerPart(fl, s);
    }
  }

  lemma OnlyServerPart(fl: Flags, s: Script)
    requires !fl.resume && Only(fl, s) == ClientFlight(fl)
    ensures var whole := Then(Says(Client, ClientHello), Then(Says(Server, ServerHello), Then(Says(Server, Certificate),
                           Then(Says(Server, CertificateStatus), Then(Says(Server, ServerKeyExchange),
                             Then(Says(Server, CertificateRequest), Then(Says(Server, ServerHelloDone), s)))))));
            Only(fl, whole) == WholeScript(fl)
  {
    var done := Then(Says(Server, ServerHelloDone), s);
    var request := Then(Says(Server, CertificateRequest), done);
    var keys := Then(Says(Server, ServerKeyExchange), request);
    var status := Then(Says(Server, CertificateStatus), keys);
    var cert := Then(Says(Server, Certificate), status);
    OnlyOptional(fl, Server, ServerHelloDone, s);
    OnlyOptional(fl, Server, CertificateRequest, done);
    OnlyOptional(fl, Server, ServerKeyExchange, request);
    OnlyOptional(fl, Server, CertificateStatus, keys);
    OnlyOptional(fl, Server, Certificate, status);
    OnlyOptional(fl, Server, ServerHello, cert);
    OnlyOptional(fl, Client, ClientHello, Then(Says(Server, ServerHello), cert));
  }
}
