/** The client against any peer at all. */
module ClientAlone {
  import opened HandshakeCore
  import opened HandshakeScript
  import opened HandshakeAlone
  import C = ClientMachine

  function After(fl: Flags, a: Alone<C.State>, d: Deed): Alone<C.State>
    requires CanDo(a.core, a.state.Done?, d)
  {
    if d.Take? then Stepped(a, C.Do(fl, a.state, a.core, d.choice)) else Otherwise(a, d)
  }

  // ----- what holds all the time -----

  /** The client does not know these beforehand: whether the server will send its OCSP response, parameters for
      a pre-shared key, and a request for a certificate. */
  predicate Variant(fl: Flags, own: Flags) {
    && own == fl.(status := own.status, pskHint := own.pskHint, verifyPeer := own.verifyPeer)
    && (own.status ==> fl.status)
  }

  /** What has been said and changed when the client is in this state. */
  function ActsAt(fl: Flags, st: C.State): Log {
    match st
    case StartConnect => Nothing
    case EnterEarlyData => Then_(Nothing, Says(Client, ClientHello))
    case ReadServerHello => Then_(Nothing, Says(Client, ClientHello))
    case ReadServerCertificate => UpToHello()
    case ReadCertificateStatus => UpToCertificate(fl)
    case VerifyServerCertificate => UpToStatus(fl)
    case ReadServerKeyExchange => UpToStatus(fl)
    case ReadCertificateRequest => UpToServerKeys(fl)
    case ReadServerHelloDone => UpToRequest(fl)
    case SendClientCertificate => UpToHelloDone(fl)
    case SendClientKeyExchange => UpToClientCertificate(fl)
    case SendClientCertificateVerify => UpToClientKeys(fl)
    case SendClientFinished => BeforeClientEnd(fl)
    case FinishFlight => ClientEnd(fl, BeforeClientEnd(fl))
    case ReadSessionTicket => BeforeServerEnd(fl)
    case ProcessChangeCipherSpec => ServerTicket(fl, BeforeServerEnd(fl))
    case ReadServerFinished => ServerChange(fl, BeforeServerEnd(fl))
    case FinishClientHandshake => WholeHandshake(fl)
    case Done => WholeHandshake(fl)
  }

  predicate Changing(st: C.State, c: Core) {
    st.ProcessChangeCipherSpec? && !c.wait.ReadChangeCipherSpec?
  }

  predicate Inv(fl: Flags, own: Flags, a: Alone<C.State>) {
    && (a.state.Done? ==> a.core.wait.Proceed?)
    && (Live(a.core) ==> Ongoing(fl, own, a.state, a.core, a.heard, a.acts))
  }

  predicate Ongoing(fl: Flags, own: Flags, st: C.State, c: Core, heard: seq<Item>, acts: seq<Act>) {
    && Place(fl, own, st, c) && HasSaid(own, st, acts)
    && Books(c, Changing(st, c), heard, acts)
  }

  predicate Place(fl: Flags, own: Flags, st: C.State, c: Core) {
    Variant(fl, own) && C.Facts(own, st, c) && Holds(fl, st, c)
  }

  predicate HasSaid(own: Flags, st: C.State, acts: seq<Act>) {
    acts == ListOf(ActsAt(own, st))
  }

  /** Where a message can be at hand, and what can be waited for. */
  predicate Holds(fl: Flags, st: C.State, c: Core) {
    && (c.buf != [] ==> C.Listens(fl, st))
    && (c.wait.ReadMessage? ==> c.buf == [] && C.Listens(fl, st))
    && (c.wait.ReadChangeCipherSpec? ==> st.ProcessChangeCipherSpec?)
    && (st.ProcessChangeCipherSpec? ==> c.wait.ReadChangeCipherSpec? || c.wait.Proceed?)
  }

  /** The points at which the client sends are those of the script. */
  lemma Points(fl: Flags, st: C.State)
    requires C.Sending(st) || st.EnterEarlyData? || st.FinishFlight?
    requires C.FullOnly(st) ==> !fl.resume
    ensures With(ActsAt(fl, st), C.ScriptOf(fl, st, Proceed)) == With(WholeHandshake(fl), End)
  {
    WholeIsScript(fl);
    HelloActs(fl);
    match st
    case StartConnect =>
    case EnterEarlyData => OneAct(Nothing, Says(Client, ClientHello), ServerHelloOn(fl));
    case SendClientCertificate => ServerPartActs(fl);
    case SendClientKeyExchange =>
      ServerPartActs(fl);
      Onward(UpToHelloDone(fl), fl.CertRequest(), Client, Certificate, KeyExchangeOn(fl));
    case SendClientCertificateVerify =>
      ServerPartActs(fl);
      Onward(UpToHelloDone(fl), fl.CertRequest(), Client, Certificate, KeyExchangeOn(fl));
      OneAct(UpToClientCertificate(fl), Says(Client, ClientKeyExchange), VerifyOn(fl));
    case _ => LatePoints(fl, st);
  }

  lemma LatePoints(fl: Flags, st: C.State)
    requires st.SendClientFinished? || st.FinishFlight?
    ensures With(ActsAt(fl, st), C.ScriptOf(fl, st, Proceed)) == With(WholeHandshake(fl), End)
  {
    if fl.resume {
      ClientEndActs(fl, BeforeClientEnd(fl), End);
    } else {
      ClientEndActs(fl, UpToVerify(fl), AfterClient(fl));
      ServerEndActs(fl, BeforeServerEnd(fl), End);
    }
  }

  // ----- the client sends -----

  lemma SendStep(fl: Flags, own: Flags, st: C.State, c: Core, heard: seq<Item>, acts: seq<Act>, choice: Choice,
      out: Out<C.State>, c': Core)
    requires Ongoing(fl, own, st, c, heard, acts) && C.Sending(st) && out == C.Do(own, st, c, choice)
    requires SendsOn(c, out) && c' == out.core.(wait := out.ret) && !out.ret.Failed?
    ensures Ongoing(fl, own, out.state, c', heard, acts + NewActs(c, c'))
  {
    var items := MachineSends(own, st, c, choice);
    SendMoves(fl, own, st, c, out, c', items);
    SentBooks(own, c, C.ScriptOf(own, st, Proceed), heard, acts, c', C.ScriptOf(own, out.state, Proceed), items);
  }

  /** A step that sends does not look at what only the server knows. */
  lemma SameSending(fl: Flags, own: Flags, st: C.State, c: Core, choice: Choice)
    requires own == fl.(status := own.status, pskHint := own.pskHint, verifyPeer := own.verifyPeer)
    requires C.Sending(st)
    ensures C.Do(own, st, c, choice) == C.Do(fl, st, c, choice)
    ensures SendsOn(c, C.Do(fl, st, c, choice))
  {
  }

  predicate SendsOn(c: Core, out: Out<C.State>) {
    && out.core.role == c.role && out.core.buf == c.buf && out.core.readEpoch == c.readEpoch
    && !out.state.ProcessChangeCipherSpec? && !out.state.Done?
    && (out.ret.Proceed? || out.ret.Flush? || out.ret.Retry? || out.ret.Failed?)
  }

  /** What the machine promises of such a step. */
  ghost predicate SentBy(own: Flags, st: C.State, c: Core, out: Out<C.State>, items: seq<Item>) {
    && Sends(own, c, C.ScriptOf(own, st, Proceed), out.core, C.ScriptOf(own, out.state, Proceed), items)
    && C.Facts(own, out.state, out.core)
         && (C.Sending(out.state) || out.state.EnterEarlyData? || out.state.FinishFlight?)
    && (C.FullOnly(out.state) ==> !own.resume)
  }

  lemma MachineSends(own: Flags, st: C.State, c: Core, choice: Choice) returns (items: seq<Item>)
    requires C.Facts(own, st, c) && C.Sending(st)
    ensures SentBy(own, st, c, C.Do(own, st, c, choice), items)
  {
    items := C.SendingMoves(own, st, c, choice);
    C.SendingKeepsFacts(own, st, c, choice);
    C.SendingGoesTo(own, st, c, choice);
  }

  lemma SendMoves(fl: Flags, own: Flags, st: C.State, c: Core, out: Out<C.State>, c': Core, items: seq<Item>)
    requires Place(fl, own, st, c) && C.Sending(st) && SendsOn(c, out) && SentBy(own, st, c, out, items)
    requires c' == out.core.(wait := out.ret) && !c'.wait.Failed?
    ensures Place(fl, own, out.state, c') && !Changing(st, c) && !Changing(out.state, c')
    ensures Sends(own, c, C.ScriptOf(own, st, Proceed), c', C.ScriptOf(own, out.state, Proceed), items)
    ensures ListOf(ActsAt(own, out.state)) == ListOf(ActsAt(own, st)) + ItemActs(items)
  {
    SentPoints(own, st, out.state, items);
    SentPlace(fl, own, st, c, out.state, out.core, c');
  }

  lemma SentPlace(fl: Flags, own: Flags, st: C.State, c: Core, next: C.State, sent: Core, c': Core)
    requires Place(fl, own, st, c) && C.Sending(st) && C.Facts(own, next, sent)
    requires c' == sent.(wait := c'.wait) && c'.buf == c.buf && !next.ProcessChangeCipherSpec?
    requires c'.wait.Proceed? || c'.wait.Flush? || c'.wait.Retry?
    ensures Place(fl, own, next, c') && !Changing(st, c) && !Changing(next, c')
  {
  }

  lemma SentPoints(own: Flags, st: C.State, next: C.State, items: seq<Item>)
    requires C.Sending(st) && (C.Sending(next) || next.EnterEarlyData? || next.FinishFlight?)
    requires C.FullOnly(st) || C.FullOnly(next) ==> !own.resume
    requires C.ScriptOf(own, st, Proceed) == Queued(items, C.ScriptOf(own, next, Proceed))
    ensures ListOf(ActsAt(own, next)) == ListOf(ActsAt(own, st)) + ItemActs(items)
  {
    Points(own, st);
    Points(own, next);
    PointsApart(ActsAt(own, st), ActsAt(own, next), items, C.ScriptOf(own, next, Proceed));
  }

  // ----- the client reads -----

  /** What the server has in its part is noted when it is heard, or when it is passed over. */
  function Decided(own: Flags, st: C.State, taken: bool): Flags {
    match st
    case ReadCertificateStatus => own.(status := taken)
    case ReadServerKeyExchange => own.(pskHint := taken)
    case ReadCertificateRequest => own.(verifyPeer := taken)
    case _ => own
  }

  lemma ReadStep(fl: Flags, own: Flags, st: C.State, c: Core, heard: seq<Item>, acts: seq<Act>, out: Out<C.State>,
      c': Core) returns (own': Flags)
    requires Ongoing(fl, own, st, c, heard, acts) && c.wait.Proceed? && (fl.status ==> fl.certAuth)
    requires !st.ProcessChangeCipherSpec? && C.TakesRight(fl, st, c, out) && c' == out.core.(wait := out.ret)
    ensures Live(c') ==> Ongoing(fl, own', out.state, c', heard, acts + NewActs(c, c'))
  {
    if out.state == st {
      own' := own;
      if Live(c') {
        StayStep(fl, own, st, c, heard, acts, c');
      }
    } else if out.core == c {
      own' := Decided(own, st, false);
      PassStep(fl, own, st, c, heard, acts, out.state, c');
    } else {
      own' := Decided(own, st, true);
      TakeStep(fl, own, st, c, heard, acts, out.core, out.state, c');
    }
  }

  lemma StayStep(fl: Flags, own: Flags, st: C.State, c: Core, heard: seq<Item>, acts: seq<Act>, c': Core)
    requires Ongoing(fl, own, st, c, heard, acts) && !st.ProcessChangeCipherSpec? && c' == c.(wait := c'.wait)
    requires c'.wait.Retry? || (c'.wait.ReadMessage? && c.buf == [] && C.Listens(fl, st))
    ensures Ongoing(fl, own, st, c', heard, acts) && acts + NewActs(c, c') == acts
  {
    PlaceStays(fl, own, st, c, c');
    QuietBooks(c, false, heard, acts, c');
  }

  lemma PassStep(fl: Flags, own: Flags, st: C.State, c: Core, heard: seq<Item>, acts: seq<Act>, next: C.State,
      c': Core)
    requires Ongoing(fl, own, st, c, heard, acts) && c.wait.Proceed? && C.MayPass(fl, st, c)
    requires c' == c.(wait := c'.wait) && C.GoesOn(st, c'.wait) && (fl.status ==> fl.certAuth)
    requires next == C.Following(fl, st)
    ensures Ongoing(fl, Decided(own, st, false), next, c', heard, acts) && acts + NewActs(c, c') == acts
  {
    PassedPlace(fl, own, st, c, next, c');
    PassedActs(fl, own, st, c);
    QuietBooks(c, false, heard, acts, c');
  }

  lemma TakeStep(fl: Flags, own: Flags, st: C.State, c: Core, heard: seq<Item>, acts: seq<Act>, taken: Core,
      next: C.State, c': Core)
    requires Ongoing(fl, own, st, c, heard, acts) && c.wait.Proceed? && C.TakesOne(fl, st, c, taken)
    requires c' == taken.(wait := c'.wait) && C.GoesOn(st, c'.wait) && (fl.status ==> fl.certAuth)
    requires next == C.Following(fl, st)
    ensures Ongoing(fl, Decided(own, st, true), next, c', heard, acts + NewActs(c, c'))
  {
    TakenPlace(fl, own, st, c, taken, next, c');
    TakenActs(fl, own, st, c.buf[0]);
    ConsumedBooks(c, heard, acts, c');
  }

  /** The step changed nothing and waits. */
  lemma PlaceStays(fl: Flags, own: Flags, st: C.State, c: Core, c': Core)
    requires Place(fl, own, st, c) && !st.ProcessChangeCipherSpec? && c' == c.(wait := c'.wait)
    requires c'.wait.Retry? || (c'.wait.ReadMessage? && c.buf == [] && C.Listens(fl, st))
    ensures Place(fl, own, st, c') && !Changing(st, c) && !Changing(st, c')
  {
  }

  /** The step went on without a message. */
  lemma PassedPlace(fl: Flags, own: Flags, st: C.State, c: Core, next: C.State, c': Core)
    requires Place(fl, own, st, c) && c.wait.Proceed? && C.MayPass(fl, st, c)
    requires c' == c.(wait := c'.wait) && C.GoesOn(st, c'.wait) && next == C.Following(fl, st)
    ensures Place(fl, Decided(own, st, false), next, c') && !Changing(next, c') && !Changing(st, c)
  {
    SamePasses(fl, own, st, c);
    PassedFacts(own, st, c, next, c', Decided(own, st, false));
    PassedHolds(fl, st, c, next, c');
  }

  lemma PassedHolds(fl: Flags, st: C.State, c: Core, next: C.State, c': Core)
    requires Holds(fl, st, c) && c.wait.Proceed? && C.MayPass(fl, st, c)
    requires c' == c.(wait := c'.wait) && C.GoesOn(st, c'.wait) && next == C.Following(fl, st)
    ensures Holds(fl, next, c') && !Changing(next, c') && !Changing(st, c)
  {
  }

  /** Where it may pass on, and to where, does not depend on what only the server decides; but for the status. */
  lemma SamePasses(fl: Flags, own: Flags, st: C.State, c: Core)
    requires Variant(fl, own) && C.MayPass(fl, st, c)
    ensures C.MayPass(own, st, c) && C.Following(own, st) == C.Following(fl, st)
    ensures C.Listens(own, st) == C.Listens(fl, st)
  {
  }

  lemma PassedFacts(own: Flags, st: C.State, c: Core, next: C.State, c': Core, own': Flags)
    requires C.Facts(own, st, c) && C.MayPass(own, st, c) && c' == c.(wait := c'.wait)
    requires next == C.Following(own, st) && (c.buf != [] ==> C.Listens(own, st))
    requires own' == if st.ReadCertificateRequest? then own.(verifyPeer := false)
                     else own.(status := own'.status, pskHint := own'.pskHint)
    ensures C.Facts(own', next, c')
  {
    if st.ReadCertificateRequest? {
      NoRequest(own, c, c');
    } else {
      PassedQuietly(own, st, c, next, c');
      FactsAside(own, own', next, c');
    }
  }

  lemma NoRequest(own: Flags, c: Core, c': Core)
    requires C.Facts(own, C.ReadCertificateRequest, c) && c' == c.(wait := c'.wait)
    ensures C.Facts(own.(verifyPeer := false), C.ReadServerHelloDone, c')
  {
  }

  lemma PassedQuietly(own: Flags, st: C.State, c: Core, next: C.State, c': Core)
    requires C.Facts(own, st, c) && C.MayPass(own, st, c) && !st.ReadCertificateRequest? && c' == c.(wait := c'.wait)
    requires next == C.Following(own, st) && (c.buf != [] ==> C.Listens(own, st))
    ensures C.Facts(own, next, c')
  {
  }

  lemma FactsAside(own: Flags, own': Flags, st: C.State, c: Core)
    requires C.Facts(own, st, c) && own' == own.(status := own'.status, pskHint := own'.pskHint)
    ensures C.Facts(own', st, c)
  {
  }

  predicate Decides(st: C.State) {
    st.ReadCertificateStatus? || st.ReadServerKeyExchange? || st.ReadCertificateRequest?
  }

  lemma PassedActs(fl: Flags, own: Flags, st: C.State, c: Core)
    requires Variant(fl, own) && C.MayPass(fl, st, c) && (C.FullOnly(st) ==> !fl.resume)
    requires fl.status ==> fl.certAuth
    ensures ActsAt(Decided(own, st, false), C.Following(fl, st)) == ActsAt(own, st)
  {
    if Decides(st) {
      DecidedActs(fl, own, st, c);
    }
  }

  lemma DecidedActs(fl: Flags, own: Flags, st: C.State, c: Core)
    requires Variant(fl, own) && C.MayPass(fl, st, c) && Decides(st) && (fl.status ==> fl.certAuth)
    ensures ActsAt(Decided(own, st, false), C.Following(fl, st)) == ActsAt(own, st)
  {
    NoneOf(own, own.(status := false), own.(pskHint := false), own.(verifyPeer := false));
  }

  /** What has been heard up to some point does not depend on what may come later; and from there on, what did not
      come is not there. */
  lemma NoneOf(own: Flags, noStatus: Flags, noHint: Flags, noRequest: Flags)
    requires noStatus == own.(status := false) && noHint == own.(pskHint := false)
    requires noRequest == own.(verifyPeer := false)
    ensures UpToStatus(noStatus) == UpToCertificate(own) && UpToRequest(noRequest) == UpToServerKeys(own)
    ensures !own.ecdhe ==> UpToServerKeys(noHint) == UpToStatus(own)
  {
  }

  /** The step took the message at hand. */
  lemma TakenPlace(fl: Flags, own: Flags, st: C.State, c: Core, taken: Core, next: C.State, c': Core)
    requires Place(fl, own, st, c) && C.TakesOne(fl, st, c, taken) && |c.buf| == 1
    requires c' == taken.(wait := c'.wait) && C.GoesOn(st, c'.wait) && next == C.Following(fl, st)
    ensures Place(fl, Decided(own, st, true), next, c') && !Changing(next, c') && !Changing(st, c)
  {
  }

  lemma TakenActs(fl: Flags, own: Flags, st: C.State, m: Msg)
    requires Variant(fl, own) && C.MayTake(fl, st, m.kind) && m.from.Server?
    requires (C.FullOnly(st) ==> !fl.resume) && (fl.status ==> fl.certAuth)
    ensures ActsAt(Decided(own, st, true), C.Following(fl, st)) == Then_(ActsAt(own, st), Says(m.from, m.kind))
  {
    if C.FullOnly(st) {
      TakenInFull(fl, own, st, m);
    } else if !st.ReadServerHello? {
      TakenLate(fl, own, st, m);
    }
  }

  lemma TakenLate(fl: Flags, own: Flags, st: C.State, m: Msg)
    requires Variant(fl, own) && C.MayTake(fl, st, m.kind) && m.from.Server?
    requires st.ReadSessionTicket? || st.ReadServerFinished?
    ensures ActsAt(Decided(own, st, true), C.Following(fl, st)) == Then_(ActsAt(own, st), Says(m.from, m.kind))
  {
  }

  lemma TakenInFull(fl: Flags, own: Flags, st: C.State, m: Msg)
    requires Variant(fl, own) && C.MayTake(fl, st, m.kind) && m.from.Server?
    requires C.FullOnly(st) && !fl.resume && (fl.status ==> fl.certAuth)
    ensures ActsAt(Decided(own, st, true), C.Following(fl, st)) == Then_(ActsAt(own, st), Says(m.from, m.kind))
  {
  }

  lemma KeyStep(fl: Flags, own: Flags, c: Core, heard: seq<Item>, acts: seq<Act>, c': Core)
    requires Ongoing(fl, own, C.ProcessChangeCipherSpec, c, heard, acts) && c.wait.Proceed?
    requires c' == c.(readEpoch := c.readEpoch + 1)
    ensures c.buf == [] && Ongoing(fl, own, C.ReadServerFinished, c', heard, acts + NewActs(c, c'))
  {
    KeysPlace(fl, own, c, c');
    KeyBooks(c, heard, acts, c');
    KeysActs(own);
  }

  lemma KeysActs(own: Flags)
    ensures ListOf(ActsAt(own, C.ReadServerFinished)) ==
            ListOf(ActsAt(own, C.ProcessChangeCipherSpec)) + [Changes(Server)]
  {
  }

  lemma KeysPlace(fl: Flags, own: Flags, c: Core, c': Core)
    requires Place(fl, own, C.ProcessChangeCipherSpec, c) && c' == c.(readEpoch := c'.readEpoch)
    requires c.wait.Proceed?
    ensures c.buf == [] && Place(fl, own, C.ReadServerFinished, c') && c.role.Client?
  {
  }

  // ----- the client waits -----

  lemma WaitsElse(fl: Flags, own: Flags, a: Alone<C.State>, d: Deed)
    requires Inv(fl, own, a) && CanDo(a.core, false, d) && !d.Take?
    ensures Inv(fl, own, Otherwise(a, d))
  {
    var b := Otherwise(a, d);
    if !b.core.wait.Unexpected? {
      if d.Hear? {
        PlaceHears(fl, own, a.state, a.core, d.item, b.core);
        HeardBooks(a.core, d.item, a.heard, a.acts);
      } else {
        PlaceGoesOn(fl, own, a.state, a.core, b.core);
        QuietBooks(a.core, false, a.heard, a.acts, b.core);
      }
    }
  }

  lemma PlaceGoesOn(fl: Flags, own: Flags, st: C.State, c: Core, c': Core)
    requires Place(fl, own, st, c) && (c.wait.Flush? || c.wait.Suspended())
    requires c' == c.(pending := c'.pending, wait := c'.wait) && (c'.wait.Flush? || c'.wait.Proceed?)
    ensures Place(fl, own, st, c') && !Changing(st, c) && !Changing(st, c')
  {
  }

  lemma PlaceHears(fl: Flags, own: Flags, st: C.State, c: Core, item: Item, c': Core)
    requires Place(fl, own, st, c) && CanDo(c, false, Hear(item))
    requires c' == Received(c, item) && !c'.wait.Unexpected?
    ensures Place(fl, own, st, c') && !Changing(st, c)
    ensures Changing(st, c') == c.wait.ReadChangeCipherSpec?
  {
  }

  lemma SendKeeps(fl: Flags, own: Flags, a: Alone<C.State>, choice: Choice)
    requires Inv(fl, own, a) && a.core.wait.Proceed? && C.Sending(a.state)
    ensures Inv(fl, own, Stepped(a, C.Do(fl, a.state, a.core, choice)))
  {
    var out := C.Do(fl, a.state, a.core, choice);
    SameSending(fl, own, a.state, a.core, choice);
    if !out.ret.Failed? {
      SendStep(fl, own, a.state, a.core, a.heard, a.acts, choice, out, out.core.(wait := out.ret));
    }
  }

  lemma KeyKeeps(fl: Flags, own: Flags, a: Alone<C.State>)
    requires Inv(fl, own, a) && a.core.wait.Proceed? && a.state.ProcessChangeCipherSpec?
    ensures Inv(fl, own, Stepped(a, NewReadKeys(a.core, a.state, C.ReadServerFinished)))
  {
    KeyStep(fl, own, a.core, a.heard, a.acts, a.core.(readEpoch := a.core.readEpoch + 1));
  }

  lemma ReadKeeps(fl: Flags, own: Flags, a: Alone<C.State>, out: Out<C.State>) returns (own': Flags)
    requires Inv(fl, own, a) && a.core.wait.Proceed? && !a.state.Done? && (fl.status ==> fl.certAuth)
    requires !a.state.ProcessChangeCipherSpec? && C.TakesRight(fl, a.state, a.core, out)
    ensures Inv(fl, own', Stepped(a, out))
  {
    own' := ReadStep(fl, own, a.state, a.core, a.heard, a.acts, out, out.core.(wait := out.ret));
  }

  lemma DeedKeeps(fl: Flags, own: Flags, a: Alone<C.State>, d: Deed) returns (own': Flags)
    requires Inv(fl, own, a) && CanDo(a.core, a.state.Done?, d) && (fl.status ==> fl.certAuth)
    ensures Inv(fl, own', After(fl, a, d))
  {
    own' := own;
    if !d.Take? {
      WaitsElse(fl, own, a, d);
    } else if C.Sending(a.state) {
      SendKeeps(fl, own, a, d.choice);
    } else if a.state.ProcessChangeCipherSpec? {
      KeyKeeps(fl, own, a);
    } else {
      C.TakesOnlyItsOwn(fl, a.state, a.core, d.choice);
      own' := ReadKeeps(fl, own, a, C.Do(fl, a.state, a.core, d.choice));
    }
  }

  // ----- every run -----

  predicate IsRun(fl: Flags, run: seq<Alone<C.State>>, deeds: seq<Deed>) {
    && |run| == |deeds| + 1 && run[0] == Alone(C.StartConnect, NewCore(Client), [], [])
    && forall i :: 0 <= i < |deeds| ==>
         CanDo(run[i].core, run[i].state.Done?, deeds[i]) && run[i + 1] == After(fl, run[i], deeds[i])
  }

  lemma AtStart(fl: Flags)
    ensures Inv(fl, fl, Alone(C.StartConnect, NewCore(Client), [], []))
  {
    var c := NewCore(Client);
    PlaceAtStart(fl, c);
    NoBooks(c);
  }

  lemma PlaceAtStart(fl: Flags, c: Core)
    requires c == NewCore(Client)
    ensures Place(fl, fl, C.StartConnect, c) && HasSaid(fl, C.StartConnect, []) && !Changing(C.StartConnect, c)
  {
  }

  lemma {:induction false} RunKeeps(fl: Flags, run: seq<Alone<C.State>>, deeds: seq<Deed>, i: nat)
      returns (own: Flags)
    requires IsRun(fl, run, deeds) && i < |run| && (fl.status ==> fl.certAuth)
    ensures Inv(fl, own, run[i])
  {
    if i == 0 {
      own := fl;
      AtStart(fl);
    } else {
      own := RunKeeps(fl, run, deeds, i - 1);
      own := DeedKeeps(fl, own, run[i - 1], deeds[i - 1]);
    }
  }

  lemma AtDone(fl: Flags, own: Flags, a: Alone<C.State>)
    requires Inv(fl, own, a) && a.state.Done?
    ensures Variant(fl, own) && a.core.buf == [] && Books(a.core, false, a.heard, a.acts)
    ensures a.acts == ListOf(WholeHandshake(own)) && a.core.sentFinished && a.core.checkedFinished
  {
  }

  /** Whatever the peer sends, a client that is done has heard and said exactly what a handshake has, for some
      choice of what the server alone decides: the messages and key changes of both sides in the order of the
      script, the server's under the right keys, and every Finished over all that came before it. */
  lemma DoneAlone(fl: Flags, run: seq<Alone<C.State>>, deeds: seq<Deed>, i: nat) returns (own: Flags)
    requires IsRun(fl, run, deeds) && i < |run| && (fl.status ==> fl.certAuth) && run[i].state.Done?
    ensures Variant(fl, own) && Completed(own, run[i].core, run[i].heard, run[i].acts)
    ensures run[i].core.sentFinished && run[i].core.checkedFinished
  {
    own := RunKeeps(fl, run, deeds, i);
    AtDone(fl, own, run[i]);
    Complete(own, run[i].core, run[i].heard, run[i].acts);
  }
}
