/** The server against any peer at all. */
module ServerAlone {
  import opened HandshakeCore
  import opened HandshakeScript
  import opened HandshakeAlone
  import S = ServerMachine

  function After(fl: Flags, a: Alone<S.State>, d: Deed): Alone<S.State>
    requires CanDo(a.core, a.state.Done?, d)
  {
    if d.Take? then Stepped(a, S.Do(fl, a.state, a.core, d.choice)) else Otherwise(a, d)
  }

  // ----- what holds all the time -----

  /** The server does not know beforehand whether the client will show a certificate. */
  predicate Variant(fl: Flags, own: Flags) {
    own == fl.(clientHasCert := own.clientHasCert)
  }

  /** What has been said and changed when the server is in this state. The ClientHello is taken in when the
      parameters are selected. */
  function ActsAt(fl: Flags, st: S.State): Log {
    match st
    case StartAccept => Nothing
    case ReadClientHello => Nothing
    case SelectCertificate => Nothing
    case SelectParameters => Nothing
    case SendServerHello => Then_(Nothing, Says(Client, ClientHello))
    case SendServerCertificate => UpToHello()
    case SendServerKeyExchange => UpToStatus(fl)
    case SendServerHelloDone => UpToServerKeys(fl)
    case ReadClientCertificate => UpToHelloDone(fl)
    case VerifyClientCertificate => UpToClientCertificate(fl)
    case ReadClientKeyExchange => UpToClientCertificate(fl)
    case ReadClientCertificateVerify => UpToClientKeys(fl)
    case ReadClientChangeCipherSpec => BeforeClientEnd(fl)
    case ProcessChangeCipherSpec => BeforeClientEnd(fl)
    case ReadNextProto => ClientChange(BeforeClientEnd(fl))
    case ReadChannelId => ClientProto(fl, BeforeClientEnd(fl))
    case ReadClientFinished => ClientId(fl, BeforeClientEnd(fl))
    case SendServerFinished => BeforeServerEnd(fl)
    case FinishServerHandshake => WholeHandshake(fl)
    case Done => WholeHandshake(fl)
  }

  predicate Changing(st: S.State, c: Core) {
    st.ProcessChangeCipherSpec? && !c.wait.ReadChangeCipherSpec?
  }

  predicate Inv(fl: Flags, own: Flags, a: Alone<S.State>) {
    && (a.state.Done? ==> a.core.wait.Proceed?)
    && (Live(a.core) ==> Ongoing(fl, own, a.state, a.core, a.heard, a.acts))
  }

  predicate Ongoing(fl: Flags, own: Flags, st: S.State, c: Core, heard: seq<Item>, acts: seq<Act>) {
    && Place(fl, own, st, c) && HasSaid(own, st, acts)
    && Books(c, Changing(st, c), heard, acts)
  }

  predicate Place(fl: Flags, own: Flags, st: S.State, c: Core) {
    Variant(fl, own) && S.Facts(own, st, c) && Holds(fl, st, c) && Shows(own, st, c)
  }

  predicate HasSaid(own: Flags, st: S.State, acts: seq<Act>) {
    acts == ListOf(ActsAt(own, st))
  }

  /** Where a message can be at hand, and what can be waited for. */
  predicate Holds(fl: Flags, st: S.State, c: Core) {
    && (c.buf != [] ==> S.Listens(fl, st, c)) && S.HelloAtHand(st, c)
    && (c.wait.ReadMessage? ==> c.buf == [] && S.Listens(fl, st, c))
    && (c.wait.ReadChangeCipherSpec? ==> st.ProcessChangeCipherSpec?)
    && (st.ProcessChangeCipherSpec? ==> c.wait.ReadChangeCipherSpec? || c.wait.Proceed?)
  }

  /** The client has shown a certificate. */
  predicate Shown(transcript: seq<Msg>) {
    exists m :: m in transcript && ShowsOne(m)
  }

  predicate ShowsOne(m: Msg) {
    m.from.Client? && m.kind.Certificate? && m.hasCert
  }

  predicate Shows(own: Flags, st: S.State, c: Core) {
    && c.peerCert == Shown(c.transcript)
    && (!S.BeforeCertificate(st) ==> c.peerCert == (own.CertRequest() && own.clientHasCert))
  }

  lemma ShownOneMore(transcript: seq<Msg>, m: Msg)
    ensures Shown(transcript + [m]) == (Shown(transcript) || ShowsOne(m))
  {
    if ShowsOne(m) {
      assert m in transcript + [m];
    }
    if Shown(transcript) {
      var shown :| shown in transcript && ShowsOne(shown);
      assert shown in transcript + [m];
    }
  }

  lemma {:induction false} OwnShowNothing(fl: Flags, q: seq<Item>, transcript: seq<Msg>, epoch: nat)
    requires Proper(fl, q, Server, transcript, epoch)
    ensures Shown(transcript + Messages(q)) == Shown(transcript)
    decreases |q|
  {
    if q == [] {
      assert transcript + [] == transcript;
    } else if q[0].Handshake? {
      var m, rest := q[0].msg, Messages(q[1..]);
      ShownOneMore(transcript, m);
      OwnShowNothing(fl, q[1..], transcript + [m], epoch);
      assert transcript + [m] + rest == transcript + ([m] + rest);
    } else {
      OwnShowNothing(fl, q[1..], transcript, epoch + 1);
      assert [] + Messages(q[1..]) == Messages(q[1..]);
    }
  }

  /** The points at which the server sends are those of the script. */
  lemma Points(fl: Flags, st: S.State)
    requires S.Sending(st) || S.Resting(st)
    requires S.FullOnly(st) ==> !fl.resume
    ensures With(ActsAt(fl, st), S.ScriptOf(fl, st, Proceed)) == With(WholeHandshake(fl), End)
  {
    WholeIsScript(fl);
    HelloActs(fl);
    match st
    case SendServerHello => OneAct(Nothing, Says(Client, ClientHello), ServerHelloOn(fl));
    case SendServerCertificate =>
    case SendServerKeyExchange => MiddlePoints(fl);
    case SendServerHelloDone =>
      MiddlePoints(fl);
      Onward(UpToStatus(fl), fl.KeyExchangeSent(), Server, ServerKeyExchange, RequestOn(fl));
    case ReadClientCertificate => ServerPartActs(fl);
    case _ => LatePoints(fl, st);
  }

  lemma MiddlePoints(fl: Flags)
    ensures With(UpToHello(), CertificateOn(fl)) == With(UpToStatus(fl), ServerKeysOn(fl))
  {
    Onward(UpToHello(), fl.certAuth, Server, Certificate, StatusOn(fl));
    Onward(UpToCertificate(fl), fl.certAuth && fl.status, Server, CertificateStatus, ServerKeysOn(fl));
  }

  lemma LatePoints(fl: Flags, st: S.State)
    requires st.SendServerFinished? || st.ReadClientChangeCipherSpec? || st.FinishServerHandshake?
    ensures With(ActsAt(fl, st), S.ScriptOf(fl, st, Proceed)) == With(WholeHandshake(fl), End)
  {
    if fl.resume {
      ServerEndActs(fl, UpToHello(), AfterServer(fl));
      ClientEndActs(fl, BeforeClientEnd(fl), End);
    } else {
      ClientEndActs(fl, UpToVerify(fl), AfterClient(fl));
      ServerEndActs(fl, BeforeServerEnd(fl), End);
    }
  }

  // ----- the server sends -----

  lemma SendStep(fl: Flags, own: Flags, st: S.State, c: Core, heard: seq<Item>, acts: seq<Act>, choice: Choice,
      out: Out<S.State>, c': Core)
    requires Ongoing(fl, own, st, c, heard, acts) && S.Sending(st) && out == S.Do(own, st, c, choice)
    requires SendsOn(c, out) && c' == out.core.(wait := out.ret) && !out.ret.Failed?
    ensures Ongoing(fl, own, out.state, c', heard, acts + NewActs(c, c'))
  {
    var items := MachineSends(own, st, c, choice);
    SendMoves(fl, own, st, c, out, c', items);
    SentBooks(own, c, S.ScriptOf(own, st, Proceed), heard, acts, c', S.ScriptOf(own, out.state, Proceed), items);
  }

  /** A step that sends does not look at what only the client knows. */
  lemma SameSending(fl: Flags, own: Flags, st: S.State, c: Core, choice: Choice)
    requires Variant(fl, own)
    requires S.Sending(st)
    ensures S.Do(own, st, c, choice) == S.Do(fl, st, c, choice)
    ensures SendsOn(c, S.Do(fl, st, c, choice))
  {
  }

  predicate SendsOn(c: Core, out: Out<S.State>) {
    && out.core.role == c.role && out.core.buf == c.buf && out.core.readEpoch == c.readEpoch
    && !out.state.ProcessChangeCipherSpec? && !out.state.Done?
    && (out.ret.Proceed? || out.ret.Flush? || out.ret.Retry? || out.ret.Failed?)
  }

  /** What the machine promises of such a step. */
  ghost predicate SentBy(own: Flags, st: S.State, c: Core, out: Out<S.State>, items: seq<Item>) {
    && Sends(own, c, S.ScriptOf(own, st, Proceed), out.core, S.ScriptOf(own, out.state, Proceed), items)
    && S.Facts(own, out.state, out.core) && (S.Sending(out.state) || S.Resting(out.state))
    && (S.FullOnly(out.state) ==> !own.resume) && out.core.peerCert == c.peerCert
             && (S.BeforeCertificate(st) && !S.BeforeCertificate(out.state) ==> own.resume)
  }

  lemma MachineSends(own: Flags, st: S.State, c: Core, choice: Choice) returns (items: seq<Item>)
    requires S.Facts(own, st, c) && S.Sending(st)
    ensures SentBy(own, st, c, S.Do(own, st, c, choice), items)
  {
    items := S.SendingMoves(own, st, c, choice);
    S.SendingKeepsFacts(own, st, c, choice);
    S.SendingGoesTo(own, st, c, choice);
  }

  lemma SendMoves(fl: Flags, own: Flags, st: S.State, c: Core, out: Out<S.State>, c': Core, items: seq<Item>)
    requires Place(fl, own, st, c) && S.Sending(st) && SendsOn(c, out) && SentBy(own, st, c, out, items)
    requires c' == out.core.(wait := out.ret) && !c'.wait.Failed?
    ensures Place(fl, own, out.state, c') && !Changing(st, c) && !Changing(out.state, c')
    ensures Sends(own, c, S.ScriptOf(own, st, Proceed), c', S.ScriptOf(own, out.state, Proceed), items)
    ensures ListOf(ActsAt(own, out.state)) == ListOf(ActsAt(own, st)) + ItemActs(items)
  {
    SentPoints(own, st, out.state, items);
    OwnShowNothing(own, items, c.transcript, c.writeEpoch);
    SentPlace(fl, own, st, c, out.state, out.core, c');
  }

  lemma SentPlace(fl: Flags, own: Flags, st: S.State, c: Core, next: S.State, sent: Core, c': Core)
    requires Place(fl, own, st, c) && S.Sending(st) && S.Facts(own, next, sent)
    requires c' == sent.(wait := c'.wait) && c'.buf == c.buf && !next.ProcessChangeCipherSpec?
    requires c'.wait.Proceed? || c'.wait.Flush? || c'.wait.Retry?
    requires Shown(c'.transcript) == Shown(c.transcript) && c'.peerCert == c.peerCert
    requires (S.BeforeCertificate(st) && !S.BeforeCertificate(next) ==> own.resume)
             && (S.Sending(next) || S.Resting(next))
    ensures Place(fl, own, next, c') && !Changing(st, c) && !Changing(next, c')
  {
  }

  lemma SentPoints(own: Flags, st: S.State, next: S.State, items: seq<Item>)
    requires S.Sending(st) && (S.Sending(next) || S.Resting(next))
    requires S.FullOnly(st) || S.FullOnly(next) ==> !own.resume
    requires S.ScriptOf(own, st, Proceed) == Queued(items, S.ScriptOf(own, next, Proceed))
    ensures ListOf(ActsAt(own, next)) == ListOf(ActsAt(own, st)) + ItemActs(items)
  {
    Points(own, st);
    Points(own, next);
    PointsApart(ActsAt(own, st), ActsAt(own, next), items, S.ScriptOf(own, next, Proceed));
  }

  // ----- the server reads -----

  /** Whether the client has a certificate is noted when its Certificate is taken. */
  function Decided(own: Flags, st: S.State, m: Msg): Flags {
    if st.ReadClientCertificate? then own.(clientHasCert := m.hasCert) else own
  }

  lemma ReadStep(fl: Flags, own: Flags, st: S.State, c: Core, heard: seq<Item>, acts: seq<Act>, out: Out<S.State>,
      c': Core) returns (own': Flags)
    requires Ongoing(fl, own, st, c, heard, acts) && c.wait.Proceed?
    requires !st.ProcessChangeCipherSpec? && S.TakesRight(fl, st, c, out) && c' == out.core.(wait := out.ret)
    ensures Live(c') ==> Ongoing(fl, own', out.state, c', heard, acts + NewActs(c, c'))
  {
    if out.state != st {
      own' := MoveStep(fl, own, st, c, heard, acts, out, c');
    } else {
      own' := own;
      if Live(c') {
        StayStep(fl, own, st, c, heard, acts, out, c');
      }
    }
  }

  lemma MoveStep(fl: Flags, own: Flags, st: S.State, c: Core, heard: seq<Item>, acts: seq<Act>, out: Out<S.State>,
      c': Core) returns (own': Flags)
    requires Ongoing(fl, own, st, c, heard, acts) && c.wait.Proceed? && out.state != st
    requires S.TakesRight(fl, st, c, out) && c' == out.core.(wait := out.ret)
    ensures Ongoing(fl, own', out.state, c', heard, acts + NewActs(c, c'))
  {
    if out.core == c {
      own' := own;
      PassStep(fl, own, st, c, heard, acts, out.state, c');
    } else {
      own' := Decided(own, st, c.buf[0]);
      TakeStep(fl, own, st, c, heard, acts, out.core, out.state, c');
    }
  }

  lemma StayStep(fl: Flags, own: Flags, st: S.State, c: Core, heard: seq<Item>, acts: seq<Act>, out: Out<S.State>,
      c': Core)
    requires Ongoing(fl, own, st, c, heard, acts) && !st.ProcessChangeCipherSpec?
    requires S.Stays(fl, st, c, out) && c' == out.core.(wait := out.ret) && Live(c')
    ensures Ongoing(fl, own, st, c', heard, acts) && acts + NewActs(c, c') == acts
  {
    PlaceStays(fl, own, st, c, c');
    QuietBooks(c, false, heard, acts, c');
  }

  lemma PassStep(fl: Flags, own: Flags, st: S.State, c: Core, heard: seq<Item>, acts: seq<Act>, next: S.State,
      c': Core)
    requires Ongoing(fl, own, st, c, heard, acts) && c.wait.Proceed? && S.MayPass(fl, st, c)
    requires c' == c.(wait := c'.wait) && S.GoesOn(st, c'.wait)
    requires next == S.Following(fl, st)
    ensures Ongoing(fl, own, next, c', heard, acts) && acts + NewActs(c, c') == acts
  {
    PassedPlace(fl, own, st, c, next, c');
    PassedActs(fl, own, st, c);
    QuietBooks(c, false, heard, acts, c');
  }

  lemma TakeStep(fl: Flags, own: Flags, st: S.State, c: Core, heard: seq<Item>, acts: seq<Act>, taken: Core,
      next: S.State, c': Core)
    requires Ongoing(fl, own, st, c, heard, acts) && c.wait.Proceed? && S.TakesOne(fl, st, c, taken)
    requires c' == taken.(wait := c'.wait) && S.GoesOn(st, c'.wait)
    requires next == S.Following(fl, st)
    ensures Ongoing(fl, Decided(own, st, c.buf[0]), next, c', heard, acts + NewActs(c, c'))
  {
    TakenPlace(fl, own, st, c, taken, next, c');
    TakenActs(fl, own, st, c, c.buf[0]);
    ConsumedBooks(c, heard, acts, c');
  }

  /** The step changed nothing and waits. */
  lemma PlaceStays(fl: Flags, own: Flags, st: S.State, c: Core, c': Core)
    requires Place(fl, own, st, c) && !st.ProcessChangeCipherSpec? && c' == c.(wait := c'.wait)
    requires c'.wait.Retry? || (c'.wait.ReadMessage? && c.buf == [] && S.Listens(fl, st, c))
    ensures Place(fl, own, st, c') && !Changing(st, c) && !Changing(st, c')
  {
  }

  /** The step went on without a message. */
  lemma PassedPlace(fl: Flags, own: Flags, st: S.State, c: Core, next: S.State, c': Core)
    requires Place(fl, own, st, c) && c.wait.Proceed? && S.MayPass(fl, st, c)
    requires c' == c.(wait := c'.wait) && S.GoesOn(st, c'.wait) && next == S.Following(fl, st)
    ensures Place(fl, own, next, c') && !Changing(next, c') && !Changing(st, c)
  {
  }

  lemma PassedActs(fl: Flags, own: Flags, st: S.State, c: Core)
    requires Variant(fl, own) && S.MayPass(fl, st, c) && (S.FullOnly(st) ==> !fl.resume)
    requires st.ReadClientCertificateVerify? ==> c.peerCert == (own.CertRequest() && own.clientHasCert)
    ensures ActsAt(own, S.Following(fl, st)) == ActsAt(own, st)
  {
  }

  /** The step took the message at hand. */
  lemma TakenPlace(fl: Flags, own: Flags, st: S.State, c: Core, taken: Core, next: S.State, c': Core)
    requires Place(fl, own, st, c) && S.TakesOne(fl, st, c, taken) && |c.buf| == 1 && c.buf[0].from.Client?
    requires c' == taken.(wait := c'.wait) && S.GoesOn(st, c'.wait) && next == S.Following(fl, st)
    ensures Place(fl, Decided(own, st, c.buf[0]), next, c') && !Changing(next, c') && !Changing(st, c)
  {
    ShownOneMore(c.transcript, c.buf[0]);
  }

  lemma TakenActs(fl: Flags, own: Flags, st: S.State, c: Core, m: Msg)
    requires Variant(fl, own) && S.MayTake(fl, st, c, m.kind) && m.from.Client?
    requires (S.FullOnly(st) ==> !fl.resume)
             && (st.ReadClientCertificateVerify? ==> own.CertRequest() && own.clientHasCert)
    ensures ActsAt(Decided(own, st, m), S.Following(fl, st)) == Then_(ActsAt(own, st), Says(m.from, m.kind))
  {
  }

  lemma KeyStep(fl: Flags, own: Flags, c: Core, heard: seq<Item>, acts: seq<Act>, c': Core)
    requires Ongoing(fl, own, S.ProcessChangeCipherSpec, c, heard, acts) && c.wait.Proceed?
    requires c' == c.(readEpoch := c.readEpoch + 1)
    ensures c.buf == [] && Ongoing(fl, own, S.ReadNextProto, c', heard, acts + NewActs(c, c'))
  {
    KeysPlace(fl, own, c, c');
    KeyBooks(c, heard, acts, c');
    KeysActs(own);
  }

  lemma KeysActs(own: Flags)
    ensures ListOf(ActsAt(own, S.ReadNextProto)) ==
            ListOf(ActsAt(own, S.ProcessChangeCipherSpec)) + [Changes(Client)]
  {
  }

  lemma KeysPlace(fl: Flags, own: Flags, c: Core, c': Core)
    requires Place(fl, own, S.ProcessChangeCipherSpec, c) && c' == c.(readEpoch := c'.readEpoch)
    requires c.wait.Proceed?
    ensures c.buf == [] && Place(fl, own, S.ReadNextProto, c') && c.role.Server?
  {
  }

  // ----- the server waits -----

  lemma WaitsElse(fl: Flags, own: Flags, a: Alone<S.State>, d: Deed)
    requires Inv(fl, own, a) && CanDo(a.core, false, d) && !d.Take?
    ensures Inv(fl, own, Otherwise(a, d))
  {
    var b := Otherwise(a, d);
    if !b.core.wait.Unexpected? {
      if d.Hear? {
        PlaceHears(fl, own, a.state, a.core, d.item, b.core);
        HeardBooks(a.core, d.item, a.heard, a.acts);
      } else {
        PlaceGoesOn(fl, own, a.state, a.core, b.core);
        QuietBooks(a.core, false, a.heard, a.acts, b.core);
      }
    }
  }

  lemma PlaceGoesOn(fl: Flags, own: Flags, st: S.State, c: Core, c': Core)
    requires Place(fl, own, st, c) && (c.wait.Flush? || c.wait.Suspended())
    requires c' == c.(pending := c'.pending, wait := c'.wait) && (c'.wait.Flush? || c'.wait.Proceed?)
    ensures Place(fl, own, st, c') && !Changing(st, c) && !Changing(st, c')
  {
  }

  lemma PlaceHears(fl: Flags, own: Flags, st: S.State, c: Core, item: Item, c': Core)
    requires Place(fl, own, st, c) && CanDo(c, false, Hear(item))
    requires c' == Received(c, item) && !c'.wait.Unexpected?
    ensures Place(fl, own, st, c') && !Changing(st, c)
    ensures Changing(st, c') == c.wait.ReadChangeCipherSpec?
  {
  }

  lemma SendKeeps(fl: Flags, own: Flags, a: Alone<S.State>, choice: Choice)
    requires Inv(fl, own, a) && a.core.wait.Proceed? && S.Sending(a.state)
    ensures Inv(fl, own, Stepped(a, S.Do(fl, a.state, a.core, choice)))
  {
    var out := S.Do(fl, a.state, a.core, choice);
    SameSending(fl, own, a.state, a.core, choice);
    if !out.ret.Failed? {
      SendStep(fl, own, a.state, a.core, a.heard, a.acts, choice, out, out.core.(wait := out.ret));
    }
  }

  lemma KeyKeeps(fl: Flags, own: Flags, a: Alone<S.State>)
    requires Inv(fl, own, a) && a.core.wait.Proceed? && a.state.ProcessChangeCipherSpec?
    ensures Inv(fl, own, Stepped(a, NewReadKeys(a.core, a.state, S.ReadNextProto)))
  {
    KeyStep(fl, own, a.core, a.heard, a.acts, a.core.(readEpoch := a.core.readEpoch + 1));
  }

  lemma ReadKeeps(fl: Flags, own: Flags, a: Alone<S.State>, out: Out<S.State>) returns (own': Flags)
    requires Inv(fl, own, a) && a.core.wait.Proceed? && !a.state.Done?
    requires !a.state.ProcessChangeCipherSpec? && S.TakesRight(fl, a.state, a.core, out)
    ensures Inv(fl, own', Stepped(a, out))
  {
    own' := ReadStep(fl, own, a.state, a.core, a.heard, a.acts, out, out.core.(wait := out.ret));
  }

  lemma DeedKeeps(fl: Flags, own: Flags, a: Alone<S.State>, d: Deed) returns (own': Flags)
    requires Inv(fl, own, a) && CanDo(a.core, a.state.Done?, d)
    ensures Inv(fl, own', After(fl, a, d))
  {
    own' := own;
    if !d.Take? {
      WaitsElse(fl, own, a, d);
    } else if S.Sending(a.state) {
      SendKeeps(fl, own, a, d.choice);
    } else if a.state.ProcessChangeCipherSpec? {
      KeyKeeps(fl, own, a);
    } else {
      S.TakesOnlyItsOwn(fl, a.state, a.core, d.choice);
      own' := ReadKeeps(fl, own, a, S.Do(fl, a.state, a.core, d.choice));
    }
  }

  // ----- every run -----

  predicate IsRun(fl: Flags, run: seq<Alone<S.State>>, deeds: seq<Deed>) {
    && |run| == |deeds| + 1 && run[0] == Alone(S.StartAccept, NewCore(Server), [], [])
    && forall i :: 0 <= i < |deeds| ==>
         CanDo(run[i].core, run[i].state.Done?, deeds[i]) && run[i + 1] == After(fl, run[i], deeds[i])
  }

  lemma AtStart(fl: Flags)
    ensures Inv(fl, fl, Alone(S.StartAccept, NewCore(Server), [], []))
  {
    var c := NewCore(Server);
    PlaceAtStart(fl, c);
    NoBooks(c);
  }

  lemma PlaceAtStart(fl: Flags, c: Core)
    requires c == NewCore(Server)
    ensures Place(fl, fl, S.StartAccept, c) && HasSaid(fl, S.StartAccept, []) && !Changing(S.StartAccept, c)
  {
  }

  lemma {:induction false} RunKeeps(fl: Flags, run: seq<Alone<S.State>>, deeds: seq<Deed>, i: nat)
      returns (own: Flags)
    requires IsRun(fl, run, deeds) && i < |run|
    ensures Inv(fl, own, run[i])
  {
    if i == 0 {
      own := fl;
      AtStart(fl);
    } else {
      own := RunKeeps(fl, run, deeds, i - 1);
      own := DeedKeeps(fl, own, run[i - 1], deeds[i - 1]);
    }
  }

  lemma AtDone(fl: Flags, own: Flags, a: Alone<S.State>)
    requires Inv(fl, own, a) && a.state.Done?
    ensures Variant(fl, own) && a.core.buf == [] && Books(a.core, false, a.heard, a.acts)
    ensures a.acts == ListOf(WholeHandshake(own)) && a.core.sentFinished && a.core.checkedFinished
            && Shows(own, a.state, a.core)
  {
  }

  /** Whatever the peer sends, a server that is done has heard and said exactly what a handshake has, whether the
      client has shown a certificate or not: the messages and key changes of both sides in the order of the
      script, the client's under the right keys, every Finished over all that came before it; and a client that
      has shown a certificate has sent a CertificateVerify over all that came before it, too. */
  lemma DoneAlone(fl: Flags, run: seq<Alone<S.State>>, deeds: seq<Deed>, i: nat) returns (own: Flags)
    requires IsRun(fl, run, deeds) && i < |run| && run[i].state.Done?
    ensures Variant(fl, own) && Completed(own, run[i].core, run[i].heard, run[i].acts)
    ensures run[i].core.sentFinished && run[i].core.checkedFinished
    ensures Shown(run[i].core.transcript) <==> own.CertRequest() && own.clientHasCert
  {
    own := RunKeeps(fl, run, deeds, i);
    AtDone(fl, own, run[i]);
    Complete(own, run[i].core, run[i].heard, run[i].acts);
  }
}
