/** A client and a server that have agreed on the flags of the handshake, a connection between them, and
    `ssl_run_handshake` on both sides. */
module HandshakeRun {
  import opened HandshakeCore
  import opened HandshakeScript
  import opened Lockstep
  import C = ClientMachine
  import S = ServerMachine

  datatype Sys = Sys(
    cs: C.State, client: Core, ss: S.State, server: Core, toClient: seq<Item>, toServer: seq<Item>)

  function Initial(): Sys {
    Sys(C.StartConnect, NewCore(Client), S.StartAccept, NewCore(Server), [], [])
  }

  /** What can happen: a step of a machine, a flight sent in part or as a whole, a record read, or the end of
      a wait for something else. */
  datatype Event =
    | Step(side: Role, choice: Choice) | Send(side: Role, n: nat, flushed: bool) | Read(side: Role) | Resume(side: Role)

  function WaitOf(s: Sys, side: Role): Wait {
    if side.Client? then s.client.wait else s.server.wait
  }

  predicate IsDone(s: Sys, side: Role) {
    if side.Client? then s.cs.Done? else s.ss.Done?
  }

  function CoreOf(s: Sys, side: Role): Core {
    if side.Client? then s.client else s.server
  }

  function Inbox(s: Sys, side: Role): seq<Item> {
    if side.Client? then s.toClient else s.toServer
  }

  predicate Enabled(s: Sys, e: Event) {
    match e
    case Step(side, _) => WaitOf(s, side).Proceed? && !IsDone(s, side)
    case Send(side, n, _) => WaitOf(s, side).Flush? && n <= |CoreOf(s, side).pending|
    case Read(side) => (WaitOf(s, side).ReadMessage? || WaitOf(s, side).ReadChangeCipherSpec?) && Inbox(s, side) != []
    case Resume(side) => WaitOf(s, side).Suspended()
  }

  /** The state after an event. */
  function After(fl: Flags, s: Sys, e: Event): Sys
    requires Enabled(s, e)
  {
    match e
    case Step(side, choice) =>
      if side.Client? then
        var out := C.Do(fl, s.cs, s.client, choice);
        s.(cs := out.state, client := out.core.(wait := out.ret))
      else
        var out := S.Do(fl, s.ss, s.server, choice);
        s.(ss := out.state, server := out.core.(wait := out.ret))
    case Send(side, n, flushed) =>
      if side.Client? then s.(client := Flushed(s.client, n, flushed), toServer := s.toServer + s.client.pending[..n])
      else s.(server := Flushed(s.server, n, flushed), toClient := s.toClient + s.server.pending[..n])
    case Read(side) =>
      if side.Client? then s.(client := Received(s.client, s.toClient[0]), toClient := s.toClient[1..])
      else s.(server := Received(s.server, s.toServer[0]), toServer := s.toServer[1..])
    case Resume(side) =>
      if side.Client? then s.(client := s.client.(wait := Proceed)) else s.(server := s.server.(wait := Proceed))
  }

  /** A run: any events in any order, as long as each can happen. */
  predicate IsRun(fl: Flags, run: seq<Sys>, events: seq<Event>) {
    && |run| == |events| + 1
    && forall i :: 0 <= i < |events| ==> Enabled(run[i], events[i]) && run[i + 1] == After(fl, run[i], events[i])
  }

  // ----- what holds in every run -----

  function ClientView(fl: Flags, s: Sys): View {
    View(s.client, C.ScriptOf(fl, s.cs, s.client.wait), C.Epoch(s.cs, s.client.readEpoch, s.client.wait))
  }

  function ServerView(fl: Flags, s: Sys): View {
    View(s.server, S.ScriptOf(fl, s.ss, s.server.wait), S.Epoch(s.ss, s.server.readEpoch, s.server.wait))
  }

  predicate ClientOk(fl: Flags, st: C.State, c: Core) {
    && C.Facts(fl, st, c) && !c.wait.Unexpected?
    && (c.wait.ReadMessage? ==> c.buf == [] && AwaitsMessage(C.ScriptOf(fl, st, c.wait), Server))
    && (c.wait.ReadChangeCipherSpec? ==> st.ProcessChangeCipherSpec? && c.buf == [])
    && (c.wait.ReadMessage? ==> !st.ProcessChangeCipherSpec?)
    && C.FlightSettled(st, c.pending, c.wait)
    && (c.wait.EarlyReturn? ==> C.FalseStart(fl, st, c))
  }

  predicate ServerOk(fl: Flags, st: S.State, c: Core) {
    && S.Facts(fl, st, c) && !c.wait.Unexpected?
    && (c.wait.ReadMessage? ==> c.buf == [] && AwaitsMessage(S.ScriptOf(fl, st, c.wait), Client))
    && (c.wait.ReadChangeCipherSpec? ==> st.ProcessChangeCipherSpec? && c.buf == [])
    && (c.wait.ReadMessage? ==> !st.ProcessChangeCipherSpec?)
    && S.FlightSettled(st, c.pending, c.wait) && !c.wait.EarlyReturn?
  }

  predicate Inv(fl: Flags, s: Sys) {
    && ClientOk(fl, s.cs, s.client) && ServerOk(fl, s.ss, s.server)
    && InLockstep(fl, ClientView(fl, s), ServerView(fl, s), s.toClient, s.toServer)
  }

  lemma InitialOk(fl: Flags)
    ensures Inv(fl, Initial())
  {
    InitialSides(fl);
    NothingYet(fl, ClientView(fl, Initial()), ServerView(fl, Initial()));
  }

  lemma InitialSides(fl: Flags)
    ensures ClientOk(fl, C.StartConnect, NewCore(Client)) && ServerOk(fl, S.StartAccept, NewCore(Server))
  {
  }

  lemma NothingYet(fl: Flags, r: View, s: View)
    requires r.core == NewCore(r.core.role) && s.core == NewCore(s.core.role) && s.core.role == Peer(r.core.role)
    requires r.script == s.script && r.epoch == 0 && s.epoch == 0
    ensures Lags(fl, r, s, [], [])
  {
    assert OnTheWay(r, s, []) == [];
  }

  lemma Symmetric(fl: Flags, a: View, b: View, toA: seq<Item>, toB: seq<Item>)
    ensures InLockstep(fl, a, b, toA, toB) <==> InLockstep(fl, b, a, toB, toA)
  {
  }

  lemma WaitsAside(fl: Flags, v: View, o: View, toV: seq<Item>, toO: seq<Item>, v': View)
    requires InLockstep(fl, v, o, toV, toO) && v' == v.(core := v.core.(wait := v'.core.wait))
    ensures InLockstep(fl, v', o, toV, toO)
  {
    assert OnTheWay(v', o, toV) == OnTheWay(v, o, toV) && OnTheWay(o, v', toO) == OnTheWay(o, v, toO);
  }

  lemma ClientStepOk(fl: Flags, st: C.State, c: Core, choice: Choice)
    requires ClientOk(fl, st, c) && c.wait.Proceed? && Expecting(fl, c, C.ScriptOf(fl, st, Proceed))
    ensures var out := C.Do(fl, st, c, choice); ClientOk(fl, out.state, out.core.(wait := out.ret))
  {
    var out := C.Do(fl, st, c, choice);
    C.StepKeepsFacts(fl, st, c, choice);
    C.StepRests(fl, st, c, choice);
    C.StepSettlesFlight(fl, st, c, choice);
    C.EarlyReturns(fl, st, c, choice);
  }

  lemma ServerStepOk(fl: Flags, st: S.State, c: Core, choice: Choice)
    requires ServerOk(fl, st, c) && c.wait.Proceed? && Expecting(fl, c, S.ScriptOf(fl, st, Proceed))
    ensures var out := S.Do(fl, st, c, choice); ServerOk(fl, out.state, out.core.(wait := out.ret))
  {
    var out := S.Do(fl, st, c, choice);
    S.StepKeepsFacts(fl, st, c, choice);
    S.StepRests(fl, st, c, choice);
    S.StepSettlesFlight(fl, st, c, choice);
    S.NeverReturnsEarly(fl, st, c, choice);
  }

  lemma ClientStepKeeps(fl: Flags, s: Sys, choice: Choice)
    requires Inv(fl, s) && Enabled(s, Step(Client, choice))
    ensures Inv(fl, After(fl, s, Step(Client, choice)))
  {
    var v, o := ClientView(fl, s), ServerView(fl, s);
    LockstepExpects(fl, v, o, s.toClient, s.toServer);
    var out := C.Do(fl, s.cs, s.client, choice);
    var items := C.StepMoves(fl, s.cs, s.client, choice);
    C.StepKeepsEpoch(fl, s.cs, s.client, choice);
    ClientStepOk(fl, s.cs, s.client, choice);
    var v1 := View(out.core, C.ScriptOf(fl, out.state, out.ret), C.Epoch(out.state, out.core.readEpoch, out.ret));
    StepKeepsLockstep(fl, v, o, s.toClient, s.toServer, v1, items);
    var s' := After(fl, s, Step(Client, choice));
    WaitsAside(fl, v1, o, s.toClient, s.toServer, ClientView(fl, s'));
  }

  lemma ServerStepKeeps(fl: Flags, s: Sys, choice: Choice)
    requires Inv(fl, s) && Enabled(s, Step(Server, choice))
    ensures Inv(fl, After(fl, s, Step(Server, choice)))
  {
    var v, o := ServerView(fl, s), ClientView(fl, s);
    Symmetric(fl, o, v, s.toClient, s.toServer);
    LockstepExpects(fl, v, o, s.toServer, s.toClient);
    var out := S.Do(fl, s.ss, s.server, choice);
    var items := S.StepMoves(fl, s.ss, s.server, choice);
    S.StepKeepsEpoch(fl, s.ss, s.server, choice);
    ServerStepOk(fl, s.ss, s.server, choice);
    var v1 := View(out.core, S.ScriptOf(fl, out.state, out.ret), S.Epoch(out.state, out.core.readEpoch, out.ret));
    StepKeepsLockstep(fl, v, o, s.toServer, s.toClient, v1, items);
    var s' := After(fl, s, Step(Server, choice));
    WaitsAside(fl, v1, o, s.toServer, s.toClient, ServerView(fl, s'));
    Symmetric(fl, o, ServerView(fl, s'), s.toClient, s.toServer);
  }

  lemma SendKeepsSides(fl: Flags, s: Sys, side: Role, n: nat, flushed: bool)
    requires Inv(fl, s) && Enabled(s, Send(side, n, flushed))
    ensures var s' := After(fl, s, Send(side, n, flushed));
              ClientOk(fl, s'.cs, s'.client) && ServerOk(fl, s'.ss, s'.server)
  {
  }

  lemma ClientSendKeeps(fl: Flags, s: Sys, n: nat, flushed: bool)
    requires Inv(fl, s) && Enabled(s, Send(Client, n, flushed))
    ensures Inv(fl, After(fl, s, Send(Client, n, flushed)))
  {
    var s' := After(fl, s, Send(Client, n, flushed));
    SendKeepsSides(fl, s, Client, n, flushed);
    C.WaitAside(fl, s.cs, s.client.readEpoch, s.client.wait, s'.client.wait);
    FlushKeepsLockstep(fl, ClientView(fl, s), ServerView(fl, s), s.toClient, s.toServer, ClientView(fl, s'), n);
  }

  lemma ServerSendKeeps(fl: Flags, s: Sys, n: nat, flushed: bool)
    requires Inv(fl, s) && Enabled(s, Send(Server, n, flushed))
    ensures Inv(fl, After(fl, s, Send(Server, n, flushed)))
  {
    var s' := After(fl, s, Send(Server, n, flushed));
    SendKeepsSides(fl, s, Server, n, flushed);
    S.WaitAside(fl, s.ss, s.server.readEpoch, s.server.wait, s'.server.wait);
    Symmetric(fl, ClientView(fl, s), ServerView(fl, s), s.toClient, s.toServer);
    FlushKeepsLockstep(fl, ServerView(fl, s), ClientView(fl, s), s.toServer, s.toClient, ServerView(fl, s'), n);
    Symmetric(fl, ClientView(fl, s'), ServerView(fl, s'), s'.toClient, s'.toServer);
  }

  lemma ResumeKeeps(fl: Flags, s: Sys, side: Role)
    requires Inv(fl, s) && Enabled(s, Resume(side))
    ensures Inv(fl, After(fl, s, Resume(side)))
  {
    var s' := After(fl, s, Resume(side));
    if side.Client? {
      C.WaitAside(fl, s.cs, s.client.readEpoch, s.client.wait, Proceed);
      WaitsAside(fl, ClientView(fl, s), ServerView(fl, s), s.toClient, s.toServer, ClientView(fl, s'));
    } else {
      S.WaitAside(fl, s.ss, s.server.readEpoch, s.server.wait, Proceed);
      Symmetric(fl, ClientView(fl, s), ServerView(fl, s), s.toClient, s.toServer);
      WaitsAside(fl, ServerView(fl, s), ClientView(fl, s), s.toServer, s.toClient, ServerView(fl, s'));
      Symmetric(fl, ClientView(fl, s'), ServerView(fl, s'), s'.toClient, s'.toServer);
    }
  }

  /** A record that is read is of the kind that is waited for, and under the keys in use. */
  lemma ReceivesExpected(fl: Flags, v: View, o: View, toV: seq<Item>, toO: seq<Item>)
    requires InLockstep(fl, v, o, toV, toO) && toV != [] && v.core.buf == [] && v.epoch == v.core.readEpoch
    requires v.core.wait.ReadMessage? ==> AwaitsMessage(v.script, Peer(v.core.role))
    requires v.core.wait.ReadChangeCipherSpec? ==> v.script.Then? && v.script.act.Changes?
    requires v.core.wait.ReadMessage? || v.core.wait.ReadChangeCipherSpec?
    ensures toV[0].Handshake? <==> v.core.wait.ReadMessage?
    ensures Received(v.core, toV[0]) ==
            if v.core.wait.ReadMessage? then v.core.(buf := [toV[0].msg], wait := Proceed) else v.core.(wait := Proceed)
  {
    NextRecord(fl, v, o, toV, toO);
  }

  lemma ClientReadOk(fl: Flags, st: C.State, c: Core, next: Core)
    requires ClientOk(fl, st, c) && (c.wait.ReadMessage? || c.wait.ReadChangeCipherSpec?)
    requires next == if c.wait.ReadMessage? then c.(buf := next.buf, wait := Proceed) else c.(wait := Proceed)
    ensures ClientOk(fl, st, next)
  {
  }

  lemma ServerReadOk(fl: Flags, st: S.State, c: Core, next: Core)
    requires ServerOk(fl, st, c) && (c.wait.ReadMessage? || c.wait.ReadChangeCipherSpec?)
    requires next == if c.wait.ReadMessage? then c.(buf := next.buf, wait := Proceed) else c.(wait := Proceed)
    ensures ServerOk(fl, st, next)
  {
  }

  lemma ClientReadKeeps(fl: Flags, s: Sys)
    requires Inv(fl, s) && Enabled(s, Read(Client))
    ensures Inv(fl, After(fl, s, Read(Client)))
  {
    var v, o, s' := ClientView(fl, s), ServerView(fl, s), After(fl, s, Read(Client));
    ReceivesExpected(fl, v, o, s.toClient, s.toServer);
    ClientReadOk(fl, s.cs, s.client, s'.client);
    if s.client.wait.ReadMessage? {
      C.WaitAside(fl, s.cs, s.client.readEpoch, s.client.wait, s'.client.wait);
      TakeMessage(fl, v, o, s.toClient, s.toServer, ClientView(fl, s'));
    } else {
      TakeKeyChange(fl, v, o, s.toClient, s.toServer, ClientView(fl, s'));
    }
  }

  lemma ServerReadKeeps(fl: Flags, s: Sys)
    requires Inv(fl, s) && Enabled(s, Read(Server))
    ensures Inv(fl, After(fl, s, Read(Server)))
  {
    var v, o, s' := ServerView(fl, s), ClientView(fl, s), After(fl, s, Read(Server));
    Symmetric(fl, o, v, s.toClient, s.toServer);
    ReceivesExpected(fl, v, o, s.toServer, s.toClient);
    ServerReadOk(fl, s.ss, s.server, s'.server);
    if s.server.wait.ReadMessage? {
      S.WaitAside(fl, s.ss, s.server.readEpoch, s.server.wait, s'.server.wait);
      TakeMessage(fl, v, o, s.toServer, s.toClient, ServerView(fl, s'));
    } else {
      TakeKeyChange(fl, v, o, s.toServer, s.toClient, ServerView(fl, s'));
    }
    Symmetric(fl, o, ServerView(fl, s'), s'.toClient, s'.toServer);
  }

  /** Every event keeps the invariant. */
  lemma EventKeeps(fl: Flags, s: Sys, e: Event)
    requires Inv(fl, s) && Enabled(s, e)
    ensures Inv(fl, After(fl, s, e))
  {
    match e
    case Step(side, choice) =>
      if side.Client? {
        ClientStepKeeps(fl, s, choice);
      } else {
        ServerStepKeeps(fl, s, choice);
      }
    case Send(side, n, flushed) =>
      if side.Client? {
        ClientSendKeeps(fl, s, n, flushed);
      } else {
        ServerSendKeeps(fl, s, n, flushed);
      }
    case Read(side) =>
      if side.Client? {
        ClientReadKeeps(fl, s);
      } else {
        ServerReadKeeps(fl, s);
      }
    case Resume(side) => ResumeKeeps(fl, s, side);
  }

  lemma {:induction false} RunKeeps(fl: Flags, run: seq<Sys>, events: seq<Event>, i: nat)
    requires IsRun(fl, run, events) && run[0] == Initial() && i < |run|
    ensures Inv(fl, run[i])
  {
    if i == 0 {
      InitialOk(fl);
    } else {
      RunKeeps(fl, run, events, i - 1);
      EventKeeps(fl, run[i - 1], events[i - 1]);
    }
  }

  // ----- the theorems -----

  /** Neither side ever finds a message of the other out of order, a Finished or a CertificateVerify over
      another transcript than its own, or a record under other keys. */
  lemma NeverUnexpected(fl: Flags, run: seq<Sys>, events: seq<Event>, i: nat)
    requires IsRun(fl, run, events) && run[0] == Initial() && i < |run|
    ensures !run[i].client.wait.Unexpected? && !run[i].server.wait.Unexpected?
  {
    RunKeeps(fl, run, events, i);
  }

  /** The two have hashed the same messages in the same order, as far as the one that is behind has come. */
  lemma SameTranscript(fl: Flags, run: seq<Sys>, events: seq<Event>, i: nat)
    requires IsRun(fl, run, events) && run[0] == Initial() && i < |run|
    ensures run[i].client.transcript <= run[i].server.transcript || run[i].server.transcript <= run[i].client.transcript
  {
    RunKeeps(fl, run, events, i);
    TranscriptsAgree(fl, ClientView(fl, run[i]), ServerView(fl, run[i]), run[i].toClient, run[i].toServer);
  }

  /** A side that is done has sent its Finished and has checked the other's. */
  lemma DoneMeansFinished(fl: Flags, run: seq<Sys>, events: seq<Event>, i: nat, side: Role)
    requires IsRun(fl, run, events) && run[0] == Initial() && i < |run| && IsDone(run[i], side)
    ensures CoreOf(run[i], side).sentFinished && CoreOf(run[i], side).checkedFinished
  {
    RunKeeps(fl, run, events, i);
  }

  /** When both are done, they have the same transcript, and nothing is left anywhere. */
  lemma BothDone(fl: Flags, run: seq<Sys>, events: seq<Event>, i: nat)
    requires IsRun(fl, run, events) && run[0] == Initial() && i < |run| && run[i].cs.Done? && run[i].ss.Done?
    ensures run[i].client.transcript == run[i].server.transcript
    ensures run[i].toClient == [] && run[i].toServer == [] && run[i].client.buf == [] && run[i].server.buf == []
  {
    RunKeeps(fl, run, events, i);
    EndsEqual(fl, ClientView(fl, run[i]), ServerView(fl, run[i]), run[i].toClient, run[i].toServer);
  }

  // ----- every message once -----

  /** The messages of a script, and those of a transcript. */
  function SaysOf(s: Script): seq<Act> {
    if s.End? then [] else (if s.act.Says? then [s.act] else []) + SaysOf(s.rest)
  }

  function Spoken(t: seq<Msg>): (r: seq<Act>)
    ensures |r| == |t|
  {
    seq(|t|, i requires 0 <= i < |t| => Says(t[i].from, t[i].kind))
  }

  lemma Regroup(a: seq<Act>, b: seq<Act>, c: seq<Act>)
    ensures a + (b + c) == a + b + c
  {
  }

  lemma SpokenJoin(a: seq<Msg>, b: seq<Msg>)
    ensures Spoken(a + b) == Spoken(a) + Spoken(b)
  {
  }

  lemma {:induction false} SaysQueued(q: seq<Item>, rest: Script)
    ensures SaysOf(Queued(q, rest)) == Spoken(Messages(q)) + SaysOf(rest)
  {
    if q != [] {
      SaysQueued(q[1..], rest);
      var first: seq<Msg> := if q[0].Handshake? then [q[0].msg] else [];
      SpokenJoin(first, Messages(q[1..]));
      Regroup(Spoken(first), Spoken(Messages(q[1..])), SaysOf(rest));
      assert Spoken(first) == if q[0].Handshake? then [ActOf(q[0])] else [];
    }
  }

  /** What a side has hashed, and what is still to be said, are together the whole handshake. */
  predicate KeepsTo(whole: seq<Act>, transcript: seq<Msg>, script: Script) {
    Spoken(transcript) + SaysOf(script) == whole
  }

  lemma MovesKeepTo(fl: Flags, whole: seq<Act>, c: Core, script: Script, c': Core, script': Script, items: seq<Item>)
    requires Moves(fl, c, script, c', script', items) && KeepsTo(whole, c.transcript, script)
    ensures KeepsTo(whole, c'.transcript, script')
  {
    if Consumes(c, script, c', script') {
      ConsumingKeepsTo(whole, c.transcript, c.buf[0], script');
    } else {
      SendingKeepsTo(whole, c.transcript, items, script');
    }
  }

  lemma ConsumingKeepsTo(whole: seq<Act>, transcript: seq<Msg>, m: Msg, script': Script)
    requires KeepsTo(whole, transcript, Then(Says(m.from, m.kind), script'))
    ensures KeepsTo(whole, transcript + [m], script')
  {
    SpokenJoin(transcript, [m]);
    assert Spoken([m]) == [Says(m.from, m.kind)];
    Regroup(Spoken(transcript), Spoken([m]), SaysOf(script'));
  }

  lemma SendingKeepsTo(whole: seq<Act>, transcript: seq<Msg>, items: seq<Item>, script': Script)
    requires KeepsTo(whole, transcript, Queued(items, script'))
    ensures KeepsTo(whole, transcript + Messages(items), script')
  {
    SaysQueued(items, script');
    SpokenJoin(transcript, Messages(items));
    Regroup(Spoken(transcript), Spoken(Messages(items)), SaysOf(script'));
  }

  predicate BothKeepTo(fl: Flags, s: Sys) {
    && KeepsTo(SaysOf(WholeScript(fl)), s.client.transcript, C.ScriptOf(fl, s.cs, s.client.wait))
    && KeepsTo(SaysOf(WholeScript(fl)), s.server.transcript, S.ScriptOf(fl, s.ss, s.server.wait))
  }

  lemma StepKeepsTo(fl: Flags, s: Sys, side: Role, choice: Choice)
    requires Inv(fl, s) && BothKeepTo(fl, s) && Enabled(s, Step(side, choice))
    ensures BothKeepTo(fl, After(fl, s, Step(side, choice)))
  {
    var v, o := ClientView(fl, s), ServerView(fl, s);
    if side.Client? {
      LockstepExpects(fl, v, o, s.toClient, s.toServer);
      var out := C.Do(fl, s.cs, s.client, choice);
      var items := C.StepMoves(fl, s.cs, s.client, choice);
      MovesKeepTo(fl, SaysOf(WholeScript(fl)), s.client, v.script, out.core, C.ScriptOf(fl, out.state, out.ret), items);
    } else {
      Symmetric(fl, v, o, s.toClient, s.toServer);
      LockstepExpects(fl, o, v, s.toServer, s.toClient);
      var out := S.Do(fl, s.ss, s.server, choice);
      var items := S.StepMoves(fl, s.ss, s.server, choice);
      MovesKeepTo(fl, SaysOf(WholeScript(fl)), s.server, o.script, out.core, S.ScriptOf(fl, out.state, out.ret), items);
    }
  }

  lemma EventKeepsTo(fl: Flags, s: Sys, e: Event)
    requires Inv(fl, s) && BothKeepTo(fl, s) && Enabled(s, e)
    ensures BothKeepTo(fl, After(fl, s, e))
  {
    if e.Step? {
      StepKeepsTo(fl, s, e.side, e.choice);
    } else {
      var s' := After(fl, s, e);
      OnlyStepsSpeak(fl, s, e);
      ClientWaitIsSilent(fl, s.cs, s.client.wait, s'.client.wait);
      ServerWaitIsSilent(fl, s.ss, s.server.wait, s'.server.wait);
    }
  }

  lemma OnlyStepsSpeak(fl: Flags, s: Sys, e: Event)
    requires Enabled(s, e) && !e.Step?
    ensures var s' := After(fl, s, e);
            && s'.cs == s.cs && s'.ss == s.ss
            && s'.client.transcript == s.client.transcript && s'.server.transcript == s.server.transcript
  {
  }

  lemma ClientWaitIsSilent(fl: Flags, st: C.State, w: Wait, w': Wait)
    ensures SaysOf(C.ScriptOf(fl, st, w)) == SaysOf(C.ScriptOf(fl, st, w'))
  {
    if st.ProcessChangeCipherSpec? {
      ChangesAreSilent(Server, C.ScriptOf(fl, st, Proceed));
    } else {
      C.ScriptAside(fl, st, w, w');
    }
  }

  lemma ServerWaitIsSilent(fl: Flags, st: S.State, w: Wait, w': Wait)
    ensures SaysOf(S.ScriptOf(fl, st, w)) == SaysOf(S.ScriptOf(fl, st, w'))
  {
    if st.ProcessChangeCipherSpec? {
      ChangesAreSilent(Client, S.ScriptOf(fl, st, Proceed));
    } else {
      S.ScriptAside(fl, st, w, w');
    }
  }

  lemma ChangesAreSilent(from: Role, s: Script)
    ensures SaysOf(Then(Changes(from), s)) == SaysOf(s)
  {
  }

  lemma {:induction false} RunKeepsTo(fl: Flags, run: seq<Sys>, events: seq<Event>, i: nat)
    requires IsRun(fl, run, events) && run[0] == Initial() && i < |run|
    ensures BothKeepTo(fl, run[i])
  {
    if i == 0 {
      assert Spoken([]) + SaysOf(WholeScript(fl)) == SaysOf(WholeScript(fl));
    } else {
      RunKeepsTo(fl, run, events, i - 1);
      RunKeeps(fl, run, events, i - 1);
      EventKeepsTo(fl, run[i - 1], events[i - 1]);
    }
  }

  /** A side that is done has hashed every message of the handshake, in the order the flags determine, and
      each exactly once; and until then a beginning of them. */
  lemma EveryMessageOnce(fl: Flags, run: seq<Sys>, events: seq<Event>, i: nat, side: Role)
    requires IsRun(fl, run, events) && run[0] == Initial() && i < |run|
    ensures Spoken(CoreOf(run[i], side).transcript) <= SaysOf(WholeScript(fl))
    ensures IsDone(run[i], side) ==> Spoken(CoreOf(run[i], side).transcript) == SaysOf(WholeScript(fl))
  {
    RunKeepsTo(fl, run, events, i);
  }

  // ----- progress -----

  predicate NoneFailed(s: Sys) {
    !s.client.wait.Failed? && !s.server.wait.Failed?
  }

  /** A side that does not wait for the peer, and is not done. */
  predicate CanGoOn(s: Sys, side: Role) {
    WaitOf(s, side).Flush? || WaitOf(s, side).Suspended() || (WaitOf(s, side).Proceed? && !IsDone(s, side))
  }

  /** The two are never both waiting for each other. */
  lemma NotStuck(fl: Flags, s: Sys)
    requires Inv(fl, s) && !(s.cs.Done? && s.ss.Done?) && !CanGoOn(s, Client) && !CanGoOn(s, Server) && NoneFailed(s)
    ensures Enabled(s, Read(Client)) || Enabled(s, Read(Server))
  {
    ClientWaits(fl, s);
    ServerWaits(fl, s);
    Symmetric(fl, ClientView(fl, s), ServerView(fl, s), s.toClient, s.toServer);
    if s.toClient != [] {
      NextRecord(fl, ClientView(fl, s), ServerView(fl, s), s.toClient, s.toServer);
    } else if s.toServer != [] {
      NextRecord(fl, ServerView(fl, s), ClientView(fl, s), s.toServer, s.toClient);
    }
  }

  /** A side that cannot go on is done, or has the other's words next in its script. */
  predicate Waits(v: View) {
    && v.core.buf == [] && v.core.pending == []
    && (v.core.wait.Proceed? ==> v.script.End?)
    && (v.core.wait.ReadMessage? || v.core.wait.ReadChangeCipherSpec? ==>
          v.script.Then? && v.script.act.from == Peer(v.core.role))
  }

  lemma ClientWaits(fl: Flags, s: Sys)
    requires Inv(fl, s) && !CanGoOn(s, Client) && !s.client.wait.Failed?
    ensures Waits(ClientView(fl, s))
  {
    LockstepExpects(fl, ClientView(fl, s), ServerView(fl, s), s.toClient, s.toServer);
  }

  lemma ServerWaits(fl: Flags, s: Sys)
    requires Inv(fl, s) && !CanGoOn(s, Server) && !s.server.wait.Failed?
    ensures Waits(ServerView(fl, s))
  {
    Symmetric(fl, ClientView(fl, s), ServerView(fl, s), s.toClient, s.toServer);
    LockstepExpects(fl, ServerView(fl, s), ClientView(fl, s), s.toServer, s.toClient);
  }

  /** How many steps, records to be read, and waits there are before the end. */
  function StepsLeft(fl: Flags, s: Sys): nat {
    C.StepsLeft(fl, s.cs) + S.StepsLeft(fl, s.ss)
  }

  function RecordsLeft(s: Sys): nat {
    |s.client.pending| + |s.server.pending| + |s.toClient| + |s.toServer|
  }

  function WaitsLeft(w: Wait): nat {
    if w.Flush? || w.Suspended() then 2 else if w.Proceed? then 1 else 0
  }

  /** The event comes closer to the end. */
  predicate Closer(fl: Flags, s: Sys, s': Sys) {
    || StepsLeft(fl, s') < StepsLeft(fl, s)
    || (StepsLeft(fl, s') == StepsLeft(fl, s) && RecordsLeft(s') < RecordsLeft(s))
    || (StepsLeft(fl, s') == StepsLeft(fl, s) && RecordsLeft(s') == RecordsLeft(s) &&
        WaitsLeft(s'.client.wait) + WaitsLeft(s'.server.wait) < WaitsLeft(s.client.wait) + WaitsLeft(s.server.wait))
  }

  lemma GoingOnGetsCloser(fl: Flags, s: Sys, side: Role) returns (e: Event)
    requires CanGoOn(s, side) && NoneFailed(s)
    ensures Enabled(s, e) && Closer(fl, s, After(fl, s, e)) && NoneFailed(After(fl, s, e))
  {
    if WaitOf(s, side).Flush? {
      e := Send(side, |CoreOf(s, side).pending|, true);
    } else if WaitOf(s, side).Suspended() {
      e := Resume(side);
    } else {
      e := Step(side, Go);
      SteppingGetsCloser(fl, s, side);
    }
  }

  lemma SteppingGetsCloser(fl: Flags, s: Sys, side: Role)
    requires WaitOf(s, side).Proceed? && !IsDone(s, side) && NoneFailed(s)
    ensures Closer(fl, s, After(fl, s, Step(side, Go))) && NoneFailed(After(fl, s, Step(side, Go)))
  {
    if side.Client? {
      C.StepAdvances(fl, s.cs, s.client, Go);
      C.GoGoesOn(fl, s.cs, s.client);
      ClientGetsCloser(fl, s, C.Do(fl, s.cs, s.client, Go));
    } else {
      S.StepAdvances(fl, s.ss, s.server, Go);
      S.GoGoesOn(fl, s.ss, s.server);
      ServerGetsCloser(fl, s, S.Do(fl, s.ss, s.server, Go));
    }
  }

  lemma ClientGetsCloser(fl: Flags, s: Sys, out: Out<C.State>)
    requires s.client.wait.Proceed? && !s.cs.Done? && NoneFailed(s) && C.Advances(fl, s.cs, s.client, out)
    requires !out.ret.Failed? && !out.ret.Retry?
    ensures var s' := s.(cs := out.state, client := out.core.(wait := out.ret)); Closer(fl, s, s') && NoneFailed(s')
  {
  }

  lemma ServerGetsCloser(fl: Flags, s: Sys, out: Out<S.State>)
    requires s.server.wait.Proceed? && !s.ss.Done? && NoneFailed(s) && S.Advances(fl, s.ss, s.server, out)
    requires !out.ret.Failed? && !out.ret.Retry?
    ensures var s' := s.(ss := out.state, server := out.core.(wait := out.ret)); Closer(fl, s, s') && NoneFailed(s')
  {
  }

  /** Something can happen that comes closer to the end. */
  lemma GetsCloser(fl: Flags, s: Sys) returns (e: Event)
    requires Inv(fl, s) && NoneFailed(s) && !(s.cs.Done? && s.ss.Done?)
    ensures Enabled(s, e) && Closer(fl, s, After(fl, s, e)) && NoneFailed(After(fl, s, e)) && Inv(fl, After(fl, s, e))
  {
    if CanGoOn(s, Client) {
      e := GoingOnGetsCloser(fl, s, Client);
    } else if CanGoOn(s, Server) {
      e := GoingOnGetsCloser(fl, s, Server);
    } else {
      NotStuck(fl, s);
      e := Read(if Enabled(s, Read(Client)) then Client else Server);
      ReadingGetsCloser(fl, s, e.side);
    }
    EventKeeps(fl, s, e);
  }

  lemma ReadingGetsCloser(fl: Flags, s: Sys, side: Role)
    requires Enabled(s, Read(side)) && NoneFailed(s)
    ensures Closer(fl, s, After(fl, s, Read(side))) && NoneFailed(After(fl, s, Read(side)))
  {
  }

  lemma RunFrom(fl: Flags, s: Sys, e: Event, run: seq<Sys>, events: seq<Event>)
    requires IsRun(fl, run, events) && Enabled(s, e) && run[0] == After(fl, s, e)
    ensures IsRun(fl, [s] + run, [e] + events)
  {
    var run', events' := [s] + run, [e] + events;
    forall i | 0 <= i < |events'|
      ensures Enabled(run'[i], events'[i]) && run'[i + 1] == After(fl, run'[i], events'[i])
    {
      if i > 0 {
        assert run'[i] == run[i - 1] && events'[i] == events[i - 1] && run'[i + 1] == run[i];
      }
    }
  }

  /** From every state that a run reaches, unless a side has given up, there is a way for both to be done. */
  lemma CanFinish(fl: Flags, s: Sys) returns (run: seq<Sys>, events: seq<Event>)
    requires Inv(fl, s) && NoneFailed(s)
    ensures IsRun(fl, run, events) && run[0] == s
    ensures run[|events|].cs.Done? && run[|events|].ss.Done?
    decreases StepsLeft(fl, s), RecordsLeft(s), WaitsLeft(s.client.wait) + WaitsLeft(s.server.wait)
  {
    if s.cs.Done? && s.ss.Done? {
      return [s], [];
    }
    var e := GetsCloser(fl, s);
    var rest, then_ := CanFinish(fl, After(fl, s, e));
    RunFrom(fl, s, e, rest, then_);
    run, events := [s] + rest, [e] + then_;
  }
}
