/** `ssl_run_handshake`, with the machine's own loop inside: what waits is resolved, and then the machine runs
    until it waits again. Each call is a run of `HandshakeRun`. */
module HandshakeLoop {
  import opened HandshakeCore
  import opened HandshakeRun
  import C = ClientMachine
  import S = ServerMachine

  datatype Result = Completed | ReturnedEarly | Blocked | Error

  /** All events are of one side. */
  predicate Only(events: seq<Event>, side: Role) {
    forall i :: 0 <= i < |events| ==> events[i].side == side
  }

  /** These events, all of one side, lead from the one state to the other. */
  ghost predicate Leads(fl: Flags, s: Sys, s': Sys, run: seq<Sys>, events: seq<Event>, side: Role) {
    IsRun(fl, run, events) && run[0] == s && run[|events|] == s' && Only(events, side)
  }

  lemma LeadsOn(fl: Flags, s: Sys, s1: Sys, run: seq<Sys>, events: seq<Event>, e: Event)
    requires Leads(fl, s, s1, run, events, e.side) && Enabled(s1, e)
    ensures Leads(fl, s, After(fl, s1, e), run + [After(fl, s1, e)], events + [e], e.side)
  {
    var run', events' := run + [After(fl, s1, e)], events + [e];
    forall i | 0 <= i < |events'|
      ensures Enabled(run'[i], events'[i]) && run'[i + 1] == After(fl, run'[i], events'[i])
    {
      if i < |events| {
        assert run'[i] == run[i] && run'[i + 1] == run[i + 1] && events'[i] == events[i];
      }
    }
  }

  function StepsOf(fl: Flags, s: Sys, side: Role): nat {
    if side.Client? then C.StepsLeft(fl, s.cs) else S.StepsLeft(fl, s.ss)
  }

  function Rank(w: Wait): nat {
    if w.Flush? then 3 else if w.Proceed? then 2 else if w.Suspended() then 1 else 0
  }

  /** A step leaves what is there to be read, and comes closer to the end or waits. */
  lemma StepRanks(fl: Flags, s: Sys, side: Role, choice: Choice)
    requires Enabled(s, Step(side, choice))
    ensures var s' := After(fl, s, Step(side, choice));
            && Inbox(s', side) == Inbox(s, side)
            && (StepsOf(fl, s', side) < StepsOf(fl, s, side) ||
                (StepsOf(fl, s', side) == StepsOf(fl, s, side) && Rank(WaitOf(s', side)) < 2))
  {
    if side.Client? {
      C.StepAdvances(fl, s.cs, s.client, choice);
    } else {
      S.StepAdvances(fl, s.ss, s.server, choice);
    }
  }

  /** The last event, if it is this kind of thing, and the state that it was met in. */
  predicate Flushing(s: Sys, events: seq<Event>, side: Role) {
    WaitOf(s, side).Flush? && events != [] && events[|events| - 1].Send?
  }

  predicate Resumed(run: seq<Sys>, events: seq<Event>, side: Role, early: bool) {
    && |run| == |events| + 1 && events != [] && events[|events| - 1].Resume?
    && WaitOf(run[|events| - 1], side) == if early then EarlyReturn else Retry
  }

  lemma FlushRanks(fl: Flags, s: Sys, side: Role, n: nat, flushed: bool)
    requires Enabled(s, Send(side, n, flushed))
    ensures var s' := After(fl, s, Send(side, n, flushed));
            && StepsOf(fl, s', side) == StepsOf(fl, s, side) && Inbox(s', side) == Inbox(s, side)
            && (WaitOf(s', side).Flush? || WaitOf(s', side).Proceed?)
  {
  }

  lemma ReadRanks(fl: Flags, s: Sys, side: Role)
    requires Enabled(s, Read(side)) && Inv(fl, After(fl, s, Read(side)))
    ensures var s' := After(fl, s, Read(side));
            && StepsOf(fl, s', side) == StepsOf(fl, s, side) && |Inbox(s', side)| < |Inbox(s, side)|
            && WaitOf(s', side).Proceed?
  {
  }

  lemma ResumeRanks(fl: Flags, s: Sys, side: Role)
    requires Enabled(s, Resume(side)) && Inv(fl, s)
    ensures var s' := After(fl, s, Resume(side));
            && StepsOf(fl, s', side) == StepsOf(fl, s, side)
            && (WaitOf(s, side).EarlyReturn? ==> side.Client? && C.FalseStart(fl, s'.cs, s'.client))
  {
  }

  class Connection {
    const fl: Flags
    var sys: Sys
    /** The run so far of the call in progress. */
    ghost var run: seq<Sys>
    ghost var events: seq<Event>
    /** How often there was nothing to be read. */
    ghost var nothing: nat

    constructor (fl: Flags)
      ensures this.fl == fl && sys == Initial() && Inv(fl, sys)
    {
      this.fl, sys, run, events, nothing := fl, Initial(), [], [], 0;
      new;
      InitialOk(fl);
    }

    method Happen(e: Event, ghost start: Sys)
      requires Inv(fl, sys) && Enabled(sys, e) && Leads(fl, start, sys, run, events, e.side)
      modifies this`sys, this`run, this`events
      ensures sys == After(fl, old(sys), e) && Inv(fl, sys) && Leads(fl, start, sys, run, events, e.side)
      ensures run == old(run) + [sys] && events == old(events) + [e]
    {
      EventKeeps(fl, sys, e);
      LeadsOn(fl, start, sys, run, events, e);
      sys := After(fl, sys, e);
      run, events := run + [sys], events + [e];
    }

    /** The loop of `ssl_client_handshake` and `ssl_server_handshake`. What callbacks and keys make of each
        step is left open. */
    method RunMachine(side: Role, ghost start: Sys)
      requires Inv(fl, sys) && WaitOf(sys, side).Proceed? && Leads(fl, start, sys, run, events, side)
      modifies this`sys, this`run, this`events
      ensures Inv(fl, sys) && Leads(fl, start, sys, run, events, side) && Inbox(sys, side) == old(Inbox(sys, side))
      ensures WaitOf(sys, side).Proceed? ==> IsDone(sys, side)
      ensures StepsOf(fl, sys, side) <= StepsOf(fl, old(sys), side)
      ensures StepsOf(fl, sys, side) == StepsOf(fl, old(sys), side) ==> sys == old(sys) || Rank(WaitOf(sys, side)) < 2
    {
      while !IsDone(sys, side)
        invariant Inv(fl, sys) && WaitOf(sys, side).Proceed? && Leads(fl, start, sys, run, events, side)
        invariant Inbox(sys, side) == old(Inbox(sys, side)) && StepsOf(fl, sys, side) <= StepsOf(fl, old(sys), side)
        invariant sys == old(sys) || StepsOf(fl, sys, side) < StepsOf(fl, old(sys), side)
        decreases StepsOf(fl, sys, side)
      {
        var holds: bool, gives: bool := *, *;
        var choice := if holds then Hold else if gives then GiveUp else Go;
        StepRanks(fl, sys, side, choice);
        Happen(Step(side, choice), start);
        if !WaitOf(sys, side).Proceed? {
          return;
        }
      }
    }

    /** `flush_flight`: the transport takes some of the flight, or all. */
    method FlushSome(side: Role, ghost start: Sys) returns (r: Result)
      requires Inv(fl, sys) && Leads(fl, start, sys, run, events, side) && WaitOf(sys, side).Flush?
      modifies this`sys, this`run, this`events
      ensures Inv(fl, sys) && Leads(fl, start, sys, run, events, side)
      ensures StepsOf(fl, sys, side) == StepsOf(fl, old(sys), side) && Inbox(sys, side) == old(Inbox(sys, side))
      ensures (r.Blocked? && Flushing(sys, events, side)) || (r.Completed? && WaitOf(sys, side).Proceed?)
    {
      var taken: nat := *;
      var pending := CoreOf(sys, side).pending;
      if taken > |pending| {
        taken := |pending|;
      }
      var flushed: bool := *;
      FlushRanks(fl, sys, side, taken, flushed);
      Happen(Send(side, taken, flushed), start);
      r := if WaitOf(sys, side).Flush? then Blocked else Completed;
    }

    /** Whether a record has arrived. */
    method HasArrived(side: Role) returns (arrived: bool)
      modifies this`nothing
      ensures arrived ==> Inbox(sys, side) != []
      ensures nothing == old(nothing) + if arrived then 0 else 1
    {
      arrived := *;
      arrived := arrived && Inbox(sys, side) != [];
      if !arrived {
        nothing := nothing + 1;
      }
    }

    /** What the side waits for is resolved, if that is possible now. */
    method Resolve(side: Role, ghost start: Sys) returns (r: Result)
      requires Inv(fl, sys) && Leads(fl, start, sys, run, events, side)
      modifies this
      ensures Inv(fl, sys) && Leads(fl, start, sys, run, events, side)
      ensures StepsOf(fl, sys, side) == StepsOf(fl, old(sys), side)
      ensures r.Error? ==> WaitOf(sys, side).Failed?
      ensures r.Completed? ==> WaitOf(sys, side).Proceed?
      ensures r.Completed? && !old(WaitOf(sys, side)).Proceed? ==>
                || |Inbox(sys, side)| < |old(Inbox(sys, side))|
                || (|Inbox(sys, side)| == |old(Inbox(sys, side))| && old(WaitOf(sys, side)).Flush?)
      ensures old(WaitOf(sys, side)).Proceed? ==> r.Completed? && sys == old(sys)
      ensures r.ReturnedEarly? ==> side.Client? && C.FalseStart(fl, sys.cs, sys.client)
      ensures nothing == old(nothing) + if r.Blocked? && old(WaitOf(sys, side)).ReadsNext() then 1 else 0
      ensures r.Blocked? && old(WaitOf(sys, side)).ReadsNext() ==> WaitOf(sys, side).ReadsNext()
      ensures r.Blocked? && !old(WaitOf(sys, side)).ReadsNext() ==>
                Flushing(sys, events, side) || Resumed(run, events, side, false)
      ensures r.ReturnedEarly? ==> Resumed(run, events, side, true)
    {
      var wait := WaitOf(sys, side);
      if wait.Failed? || wait.Unexpected? {
        return Error;
      } else if wait.Flush? {
        r := FlushSome(side, start);
        return;
      } else if wait.ReadsNext() {
        var arrived := HasArrived(side);
        if !arrived {
          return Blocked;
        }
        ReadOne(side, start);
      } else if wait.Suspended() {
        ResumeRanks(fl, sys, side);
        Happen(Resume(side), start);
        return if wait.EarlyReturn? then ReturnedEarly else Blocked;
      }
      return Completed;
    }

    /** One record is read. */
    method ReadOne(side: Role, ghost start: Sys)
      requires Inv(fl, sys) && Leads(fl, start, sys, run, events, side)
      requires WaitOf(sys, side).ReadsNext() && Inbox(sys, side) != []
      modifies this`sys, this`run, this`events
      ensures Inv(fl, sys) && Leads(fl, start, sys, run, events, side) && WaitOf(sys, side).Proceed?
      ensures StepsOf(fl, sys, side) == StepsOf(fl, old(sys), side) && |Inbox(sys, side)| < |old(Inbox(sys, side))|
    {
      ghost var before := sys;
      Happen(Read(side), start);
      ReadRanks(fl, before, side);
    }

    /** `ssl_run_handshake`: it fails only when the side itself gives up, never because of the peer's
        messages; it finishes only when the machine is done; and it is blocked only when there is nothing to be
        read, when the transport has not taken the flight yet, or when a callback has to be waited for. */
    method RunHandshake(side: Role) returns (r: Result)
      requires Inv(fl, sys)
      modifies this
      ensures Inv(fl, sys) && Leads(fl, old(sys), sys, run, events, side)
      ensures r.Error? ==> WaitOf(sys, side).Failed?
      ensures r.Completed? ==> IsDone(sys, side) && CoreOf(sys, side).sentFinished && CoreOf(sys, side).checkedFinished
      ensures r.ReturnedEarly? ==> side.Client? && C.FalseStart(fl, sys.cs, sys.client)
      ensures r.ReturnedEarly? ==> Resumed(run, events, side, true)
      ensures r.Blocked? ==>
                || (nothing == old(nothing) + 1 && WaitOf(sys, side).ReadsNext())
                || Flushing(sys, events, side) || Resumed(run, events, side, false)
    {
      ghost var start := sys;
      run, events := [sys], [];
      while true
        invariant Inv(fl, sys) && Leads(fl, start, sys, run, events, side) && nothing == old(nothing)
        decreases |Inbox(sys, side)|, StepsOf(fl, sys, side), Rank(WaitOf(sys, side))
      {
        r := Resolve(side, start);
        if !r.Completed? {
          return;
        }
        RunMachine(side, start);
        if WaitOf(sys, side).Failed? {
          return Error;
        }
        if WaitOf(sys, side).Proceed? {
          return Completed;
        }
      }
    }
  }
}
