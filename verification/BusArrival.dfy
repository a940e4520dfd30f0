/**
  Who receives what in a run: messages to one client, messages to the members of a group, and messages that
  meet a full queue.
  */
module BusArrival {
  import opened Options
  import opened BusRegistry
  import opened BusProtocol
  import opened BusRuns
  import opened BusGroups
  import opened BusDelivery
  import opened BusOrder

  // ----- what a step leaves alone

  /** Client `c` is connected under address `a`. */
  predicate Owns(s: Sys, c: nat, a: int) {
    c in s.queues && c in s.tasks && s.tasks[c].addr == a
  }

  lemma StepKeepsOwner(s: Sys, a: Action, c: nat, addr: int)
    requires FlowInv(s) && Owns(s, c, addr)
    ensures Owns(Apply(s, a), c, addr)
  {
    hide RegistryInv, MsgOk, VisitsOk, Visits, PlaceOk, At;
    match a
    case Send(d, to) =>
    case Receive(d) =>
    case Forward(d) =>
      if d in s.tasks && Carried(s.tasks[d]).Some? {
        CarriedAt(s, d);
        assert MsgOk(s, s.msgs[Carried(s.tasks[d]).value]);
        ForwardEffect(s, d, Carried(s.tasks[d]).value);
      }
    case _ => QuietStep(s, a);
  }

  lemma {:induction false} OwnerStays(run: seq<Action>, k: nat, c: nat, addr: int)
    requires k <= |run| && Owns(Final(run[..k]), c, addr)
    ensures Owns(Final(run), c, addr)
  {
    if |run| == k {
      assert run[..k] == run;
    } else {
      var front, a := run[..|run| - 1], run[|run| - 1];
      assert front[..k] == run[..k] && run == front + [a];
      OwnerStays(front, k, c, addr);
      EveryRun(front);
      hide FlowInv, LogOk, Apply, Owns;
      StepKeepsOwner(Final(front), a, c, addr);
    }
  }

  lemma StepKeepsReach(s: Sys, a: Action, id: nat)
    requires FlowInv(s) && Reachable(s, id)
    ensures Reachable(Apply(s, a), id)
  {
    var t := Apply(s, a);
    SnapshotsStay(s, a, id);
    hide FlowInv, Apply;
    forall x | x in t.msgs[id].snapshot
      ensures IsMember(t, x)
    {
      assert IsMember(s, x);
      var c :| c in s.queues && c in s.tasks && s.tasks[c].addr == x;
      StepKeepsOwner(s, a, c, x);
      assert Owns(t, c, x);
    }
  }

  /** What can reach everyone it is for, and is not lost, is not lost later while queues have room. */
  lemma {:induction false} NotLostLater(run: seq<Action>, k: nat, id: nat)
    requires k <= |run| && NeverFull(run)
    requires Reachable(Final(run[..k]), id) && NotLost(Final(run[..k]), id)
    ensures Reachable(Final(run), id) && NotLost(Final(run), id)
  {
    if |run| == k {
      assert run[..k] == run;
    } else {
      var front, a := run[..|run| - 1], run[|run| - 1];
      assert front[..k] == run[..k] && run == front + [a];
      NotLostLater(front, k, id);
      EveryRun(front);
      hide FlowInv, LogOk, Apply, Reachable, NotLost, HasRoom;
      StepKeepsReach(Final(front), a, id);
      StepLosesNone(Final(front), a, id);
    }
  }

  // ----- what is gone stays gone

  lemma StepKeepsGone(s: Sys, a: Action, id: nat)
    requires FlowInv(s) && LogOk(s) && id < |s.msgs| && !InFlight(s, id)
    ensures !InFlight(Apply(s, a), id) && Visits(Apply(s, a).log, id) == Visits(s.log, id)
  {
    hide RegistryInv, MsgOk, VisitsOk, Visits, Linear, InFlight, At, DoForward, DoReceive, DoSend;
    match a
    case Send(c, to) => SendKeepsGone(s, c, to, id);
    case Forward(c) =>
      if c in s.tasks {
        if Carried(s.tasks[c]).Some? { ForwardKeepsGone(s, c, id); } else { NothingToForward(s, c); }
      }
    case Receive(c) =>
      if c in s.tasks && c in s.queues && s.queues[c] != [] && Free(s.tasks[c]) { ReceiveKeepsGone(s, c, id); }
    case _ =>
      QuietStep(s, a);
      hide Apply;
      QuietKeepsGone(s, Apply(s, a), id);
  }

  lemma NothingToForward(s: Sys, c: nat)
    requires c in s.tasks && Carried(s.tasks[c]).None?
    ensures DoForward(s, c) == s
  {
  }

  lemma QuietPlace(s: Sys, t: Sys, p: Place, id: nat)
    requires Quiet(s, t)
    ensures At(t, p, id) ==> At(s, p, id)
  {
  }

  lemma QuietKeepsGone(s: Sys, t: Sys, id: nat)
    requires Quiet(s, t) && !InFlight(s, id)
    ensures !InFlight(t, id) && Visits(t.log, id) == Visits(s.log, id)
  {
    hide Visits, At;
    forall p
      ensures !At(t, p, id)
    {
      QuietPlace(s, t, p, id);
    }
  }

  lemma SendPlace(s: Sys, c: nat, to: int, p: Place, id: nat)
    requires id < |s.msgs|
    ensures At(Apply(s, Send(c, to)), p, id) ==> At(s, p, id)
  {
    hide Destination;
  }

  lemma SendKeepsGone(s: Sys, c: nat, to: int, id: nat)
    requires id < |s.msgs| && !InFlight(s, id)
    ensures !InFlight(Apply(s, Send(c, to)), id) && Apply(s, Send(c, to)).log == s.log
  {
    hide Destination, At;
    forall p
      ensures !At(Apply(s, Send(c, to)), p, id)
    {
      SendPlace(s, c, to, p, id);
    }
  }

  lemma ForwardKeepsGone(s: Sys, c: nat, id: nat)
    requires FlowInv(s) && id < |s.msgs| && !InFlight(s, id) && c in s.tasks && Carried(s.tasks[c]).Some?
    ensures !InFlight(DoForward(s, c), id) && DoForward(s, c).log == s.log
  {
    CarriedAt(s, c);
    var m := Carried(s.tasks[c]).value;
    ForwardMsg(s, c, m, id);
    hide FlowInv, At;
    if p :| At(DoForward(s, c), p, id) {
      ForwardMoves(s, c, m, p, id);
    }
  }

  lemma ReceiveKeepsGone(s: Sys, c: nat, id: nat)
    requires !InFlight(s, id)
    requires c in s.tasks && c in s.queues && s.queues[c] != [] && Free(s.tasks[c])
    ensures !InFlight(DoReceive(s, c), id) && Visits(DoReceive(s, c).log, id) == Visits(s.log, id)
  {
    AtHead(s, c);
    assert s.queues[c][0] != id by {
      if s.queues[c][0] == id { StillAt(s, Queued(c, 0), id); }
    }
    VisitsSnoc(s.log, Event(c, s.queues[c][0]), id);
    hide At;
    if p :| At(DoReceive(s, c), p, id) {
      ReceiveMoves(s, c, p, id);
    }
  }

  /** Once a message is in no queue and with no task, it never comes back, and nobody receives it any more. */
  lemma {:induction false} GoneForEver(run: seq<Action>, k: nat, id: nat)
    requires k <= |run| && id < |Final(run[..k]).msgs| && !InFlight(Final(run[..k]), id)
    ensures !InFlight(Final(run), id) && Visits(Final(run).log, id) == Visits(Final(run[..k]).log, id)
  {
    if |run| == k {
      assert run[..k] == run;
    } else {
      var front, a := run[..|run| - 1], run[|run| - 1];
      assert front[..k] == run[..k] && run == front + [a];
      GoneForEver(front, k, id);
      EveryRun(front);
      hide FlowInv, LogOk, InFlight, Visits;
      SnapshotForEver(front, k, id);
      hide Apply;
      StepKeepsGone(Final(front), a, id);
    }
  }

  // ----- messages to one client

  /** A message to one client that is not in flight and was not lost has been received by it, once. */
  lemma ReceivedByOwner(run: seq<Action>, k: nat, c: nat, id: nat, to: int)
    requires NeverFull(run) && k <= |run| && Owns(Final(run[..k]), c, to)
    requires NotLost(Final(run[..k]), id) && Final(run[..k]).msgs[id].snapshot == [to]
    ensures id < |Final(run).msgs| && (InFlight(Final(run), id) || Visits(Final(run).log, id) == [c])
  {
    var s := Final(run);
    hide Final, InFlight, Visits, NeverFull, FlowInv, LogOk;
    OwnerIsMember(Final(run[..k]), c, to);
    NotLostLater(run, k, id);
    SnapshotForEver(run, k, id);
    OwnerStays(run, k, c, to);
    EveryRun(run);
    if !InFlight(s, id) {
      OnlyReceiver(s, c, id, to);
    }
  }

  lemma OwnerIsMember(s: Sys, c: nat, a: int)
    requires Owns(s, c, a)
    ensures IsMember(s, a)
  {
  }

  lemma OnlyReceiver(s: Sys, c: nat, id: nat, to: int)
    requires FlowInv(s) && id < |s.msgs| && s.msgs[id].snapshot == [to] && Owns(s, c, to)
    requires |Visits(s.log, id)| == 1
    ensures Visits(s.log, id) == [c]
  {
    hide RegistryInv, Linear, MsgOk, Visits;
    var v := Visits(s.log, id);
    assert VisitsOk(s, v, s.msgs[id]);
    OwnersDistinct(s, c, v[0]);
  }

  /**
    In every run without a full queue, a message sent to the address of a client that is connected at that
    moment is in flight or has been received exactly once, by that client.
    */
  lemma DirectDelivered(run: seq<Action>, k: nat, c: nat)
    requires NeverFull(run) && k < |run| && run[k].Send? && run[k].to < 0 && Sends(run, k, run[k].to)
    requires Owns(Final(run[..k]), c, run[k].to)
    ensures var id := |Final(run[..k]).msgs|;
            && id < |Final(run).msgs| && Final(run).msgs[id].to == run[k].to
            && (InFlight(Final(run), id) || Visits(Final(run).log, id) == [c])
  {
    var s, to := Final(run[..k]), run[k].to;
    var id := |s.msgs|;
    assert run[..k + 1] == run[..k] + [run[k]];
    assert run[..k + 1][..k] == run[..k];
    OwnerStays(run[..k + 1], k, c, to);
    SendStarts(run, k);
    hide Final, InFlight, Owns, NeverFull, Visits;
    ReceivedByOwner(run, k + 1, c, id, to);
    TargetForEver(run, k + 1, id);
  }

  lemma {:induction false} TargetForEver(run: seq<Action>, k: nat, id: nat)
    requires k <= |run| && id < |Final(run[..k]).msgs|
    ensures id < |Final(run).msgs| && Final(run).msgs[id].to == Final(run[..k]).msgs[id].to
    ensures Final(run).msgs[id].from == Final(run[..k]).msgs[id].from
  {
    if |run| == k {
      assert run[..k] == run;
    } else {
      var front, a := run[..|run| - 1], run[|run| - 1];
      assert front[..k] == run[..k] && run == front + [a];
      TargetForEver(front, k, id);
      hide Apply;
      SnapshotsStay(Final(front), a, id);
    }
  }

  /** A new message names its sender and its target, and its sender's task is about to pass it on. */
  lemma SendStarts(run: seq<Action>, k: nat)
    requires k < |run| && run[k].Send? && Sends(run, k, run[k].to)
    ensures var s, t, c, id := Final(run[..k]), Final(run[..k + 1]), run[k].client, |Final(run[..k]).msgs|;
            && id < |t.msgs| && c in s.tasks && c in t.tasks && t.tasks[c].outgoing == Some(id)
            && InFlight(t, id) && NotLost(t, id)
            && t.msgs[id].from == s.tasks[c].addr && t.msgs[id].to == run[k].to
            && (run[k].to < 0 ==> t.msgs[id].snapshot == [run[k].to])
  {
    var s := Final(run[..k]);
    assert run[..k + 1] == run[..k] + [run[k]];
    FinalSnoc(run[..k], run[k]);
    NewMessage(s, run[k], |s.msgs|);
    SentIsInFlight(s, run[k].client, run[k].to);
    hide Final, Apply, InFlight, Visits;
  }

  /**
    A message to one client is decided when it is passed on: it reaches the client that its address then
    resolves to, and if there is none, nobody ever.
    */
  lemma DirectDecided(run: seq<Action>, k: nat, d: nat, m: nat)
    requires NeverFull(run) && k < |run| && run[k] == Forward(d)
    requires var s := Final(run[..k]);
             d in s.tasks && s.tasks[d].outgoing == Some(m) && m < |s.msgs| && s.msgs[m].to < 0
    ensures var target := Resolve(Final(run[..k]).reg.clients, Final(run[..k]).msgs[m].to);
            && (target.Some? ==> InFlight(Final(run), m) || Visits(Final(run).log, m) == [target.value])
            && (target.None? ==> !InFlight(Final(run), m) && Visits(Final(run).log, m) == [])
  {
    var s := Final(run[..k]);
    var to := s.msgs[m].to;
    EveryRun(run[..k]);
    UnsentDirect(s, d, m);
    hide Final, FlowInv, InFlight, Visits, Resolve, NeverFull;
    if Resolve(s.reg.clients, to).Some? {
      var c := Resolve(s.reg.clients, to).value;
      ResolvedOwns(s, to);
      ReceivedByOwner(run, k, c, m, to);
    } else {
      assert run[..k + 1] == run[..k] + [run[k]];
      FinalSnoc(run[..k], run[k]);
      ForwardApplies(s, d);
      UnresolvedIsGone(s, d, m);
      GoneForEver(run, k + 1, m);
    }
  }

  lemma UnsentDirect(s: Sys, d: nat, m: nat)
    requires FlowInv(s) && d in s.tasks && s.tasks[d].outgoing == Some(m) && m < |s.msgs| && s.msgs[m].to < 0
    ensures s.msgs[m].snapshot == s.msgs[m].dest == [s.msgs[m].to] && NotLost(s, m) && Visits(s.log, m) == []
  {
    hide RegistryInv, Linear, Visits;
    assert At(s, Outgoing(d), m) && MsgOk(s, s.msgs[m]);
    StillAt(s, Outgoing(d), m);
  }

  lemma ResolvedOwns(s: Sys, a: int)
    requires FlowInv(s) && Resolve(s.reg.clients, a).Some?
    ensures Owns(s, Resolve(s.reg.clients, a).value, a)
  {
    ResolvesToOwner(s, a);
  }

  lemma UnresolvedIsGone(s: Sys, d: nat, m: nat)
    requires FlowInv(s) && d in s.tasks && s.tasks[d].outgoing == Some(m) && m < |s.msgs|
    requires s.msgs[m].dest == [s.msgs[m].to] && Resolve(s.reg.clients, s.msgs[m].to).None?
    ensures var t := DoForward(s, d); m < |t.msgs| && !InFlight(t, m) && t.log == s.log
  {
    var dest := s.msgs[m].dest;
    assert Route(s.reg.clients, dest).0.None? by {
      assert dest[..0] == [];
      assert Route(s.reg.clients, dest[..0]).0.None?;
    }
    NotLandedIsGone(s, d, m);
  }

  /** A message that is passed on and enters no queue is nowhere any more. */
  lemma NotLandedIsGone(s: Sys, d: nat, m: nat)
    requires FlowInv(s) && d in s.tasks && Carried(s.tasks[d]) == Some(m) && m < |s.msgs|
    requires Landing(s, m).None?
    ensures var t := DoForward(s, d); m < |t.msgs| && !InFlight(t, m) && t.log == s.log
  {
    ForwardMsg(s, d, m, m);
    hide RegistryInv, MsgOk, VisitsOk, DoForward, Landing, Visits, At;
    if p :| At(DoForward(s, d), p, m) {
      ForwardMoves(s, d, m, p, m);
    }
  }

  // ----- full queues

  /** In every run, no queue ever holds more than 32 messages. */
  lemma {:induction false} QueuesBounded(run: seq<Action>, c: nat)
    requires c in Final(run).queues
    ensures |Final(run).queues[c]| <= 32
  {
    if run != [] {
      var front, a := run[..|run| - 1], run[|run| - 1];
      EveryRun(front);
      if c in Final(front).queues {
        QueuesBounded(front, c);
      }
      hide FlowInv, LogOk, Apply;
      QueueStep(Final(front), a, c);
    }
  }

  lemma QueueStep(s: Sys, a: Action, c: nat)
    requires FlowInv(s) && c in Apply(s, a).queues
    ensures c in s.queues ==> |Apply(s, a).queues[c]| <= |s.queues[c]| || |Apply(s, a).queues[c]| <= 32
    ensures c !in s.queues ==> Apply(s, a).queues[c] == []
  {
    hide RegistryInv, MsgOk, VisitsOk, Visits, PlaceOk, At, Destination;
    match a
    case Send(d, to) =>
    case Receive(d) =>
    case Forward(d) =>
      if d in s.tasks && Carried(s.tasks[d]).Some? {
        CarriedAt(s, d);
        assert MsgOk(s, s.msgs[Carried(s.tasks[d]).value]);
        ForwardEffect(s, d, Carried(s.tasks[d]).value);
      }
    case _ => QuietStep(s, a);
  }

  /**
    A message whose next destination has 32 messages waiting is lost when it is passed on: whoever has
    received it by then has, and nobody else ever does.  With fewer it enters that queue.
    */
  lemma FullQueueLoses(run: seq<Action>, k: nat, d: nat, m: nat, y: nat)
    requires k < |run| && run[k] == Forward(d)
    requires var s := Final(run[..k]);
             && d in s.tasks && Carried(s.tasks[d]) == Some(m) && m < |s.msgs| && s.msgs[m].dest != []
             && Resolve(s.reg.clients, s.msgs[m].dest[|s.msgs[m].dest| - 1]) == Some(y)
    ensures var s, t := Final(run[..k]), Final(run[..k + 1]);
            && y in s.queues
            && (|s.queues[y]| < 32 ==> t.queues == s.queues[y := s.queues[y] + [m]])
            && (|s.queues[y]| >= 32 ==> t.queues == s.queues && !InFlight(Final(run), m)
                                        && Visits(Final(run).log, m) == Visits(s.log, m))
  {
    hide *;
    EveryRun(run[..k]);
    assert run[..k + 1] == run[..k] + [run[k]];
    FinalSnoc(run[..k], run[k]);
    ForwardApplies(Final(run[..k]), d);
    ForwardInto(Final(run[..k]), d, m, y);
    if |Final(run[..k]).queues[y]| >= 32 {
      NotLandedIsGone(Final(run[..k]), d, m);
      GoneForEver(run, k + 1, m);
    }
  }

  lemma ForwardInto(s: Sys, d: nat, m: nat, y: nat)
    requires FlowInv(s) && d in s.tasks && Carried(s.tasks[d]) == Some(m) && m < |s.msgs| && s.msgs[m].dest != []
    requires Resolve(s.reg.clients, s.msgs[m].dest[|s.msgs[m].dest| - 1]) == Some(y)
    ensures y in s.queues && (Landing(s, m).None? <==> |s.queues[y]| >= 32)
    ensures DoForward(s, d).queues == if |s.queues[y]| < 32 then s.queues[y := s.queues[y] + [m]] else s.queues
  {
    ResolvedOwns(s, s.msgs[m].dest[|s.msgs[m].dest| - 1]);
    FirstRoute(s.reg.clients, s.msgs[m].dest, y);
    assert MsgOk(s, s.msgs[m]);
    hide Visits, Resolve, Route, DoForward, RegistryInv, Linear, VisitsOk, MsgOk;
    ForwardEffect(s, d, m);
  }

  lemma FirstRoute<Q>(clients: seq<Client<Q>>, dest: seq<int>, y: Q)
    requires dest != [] && Resolve(clients, dest[|dest| - 1]) == Some(y)
    ensures Route(clients, dest).0 == Some(y)
  {
  }

  // ----- members of groups

  /** Client `c` completes a join of group `g` at step `j`. */
  ghost predicate Joins(run: seq<Action>, j: nat, c: nat, g: int) {
    && j < |run| && run[j] == JoinAdd(c)
    && var s := Final(run[..j]); c in s.tasks && c in s.queues && s.tasks[c].joining == Some(g)
  }

  /** Client `c` does not complete a leave of group `g` at any step from `j` on. */
  ghost predicate NeverLeaves(run: seq<Action>, j: nat, c: nat, g: int) {
    forall i | j <= i < |run| && run[i] == LeaveRemove(c) ::
      var s := Final(run[..i]); !(c in s.tasks && s.tasks[c].leaving == Some(g))
  }

  lemma ConnectedAddressValid(s: Sys, c: nat)
    requires RegistryInv(s) && c in s.queues
    ensures c in s.tasks && s.tasks[c].addr < 0
  {
    hide GroupsValid, JoinsFind, MembersConnected;
    assert Client(s.tasks[c].addr, c) in s.reg.clients;
  }

  /** The second section of a join makes its client a member. */
  lemma JoinAddJoins(s: Sys, c: nat, g: int)
    requires RegistryInv(s) && c in s.queues && c in s.tasks && s.tasks[c].joining == Some(g)
    ensures s.tasks[c].addr in Destination(Apply(s, JoinAdd(c)).reg, g)
  {
    ConnectedAddressValid(s, c);
    assert HasGroup(s.reg, g);
    hide HasGroup, Destination, JoinGroup, ClientsValid, Connected, JoinsFind, MembersConnected;
    JoinGroupKeeps(s.reg, g, s.tasks[c].addr, g);
  }

  /** A member stays a member until it leaves. */
  lemma StepKeepsMember(s: Sys, a: Action, c: nat, g: int)
    requires RegistryInv(s) && c in s.tasks && s.tasks[c].addr in Destination(s.reg, g)
    requires !(a == LeaveRemove(c) && s.tasks[c].leaving == Some(g))
    requires c in s.queues
    ensures s.tasks[c].addr in Destination(Apply(s, a).reg, g)
  {
    var x := s.tasks[c].addr;
    hide Destination, RemoveIf, Apply, Grows, RegistryInv;
    if a.LeaveRemove? {
      LeaveApplies(s, a.client);
      if a.client in s.tasks && s.tasks[a.client].leaving.Some? {
        LeaveChanges(s, a.client, g);
        if a.client != c { OtherLeaver(s, a.client, c, g); }
        RemoveIfMember(Destination(s.reg, g), OtherAddress(s.tasks[a.client].addr), x);
      }
    } else {
      OthersGrow(s, a, g);
      GrowsMember(Destination(s.reg, g), Destination(Apply(s, a).reg, g), x);
    }
  }

  lemma GrowsMember(d: seq<int>, e: seq<int>, x: int)
    requires Grows(d, e) && x in d
    ensures x in e
  {
    if e != d {
      assert e == [e[0]] + e[1..];
    }
  }

  /** Whoever leaves group `g` otherwise has another address. */
  lemma OtherLeaver(s: Sys, d: nat, c: nat, g: int)
    requires RegistryInv(s) && d in s.tasks && c in s.tasks && c in s.queues && d != c
    ensures s.tasks[d].addr != s.tasks[c].addr
  {
    ConnectedAddressValid(s, c);
    if d in s.queues {
      OwnersDistinct(s, c, d);
    }
  }

  lemma {:induction false} MemberStays(run: seq<Action>, j: nat, c: nat, g: int)
    requires Joins(run, j, c, g) && NeverLeaves(run, j, c, g)
    ensures c in Final(run).queues && c in Final(run).tasks
    ensures Final(run).tasks[c].addr in Destination(Final(run).reg, g)
  {
    var front, a := run[..|run| - 1], run[|run| - 1];
    var s := Final(front);
    assert run == front + [a];
    EveryRun(front);
    FinalSnoc(front, a);
    RegistryOf(s);
    hide Final, RegistryInv, Destination, Apply, FlowInv, LogOk;
    if j == |run| - 1 {
      JoinAddJoins(s, c, g);
    } else {
      JoinsInFront(run, j, c, g);
      MemberStays(front, j, c, g);
      StepKeepsMember(s, a, c, g);
    }
    StepKeepsOwner(s, a, c, s.tasks[c].addr);
  }

  lemma JoinsInFront(run: seq<Action>, j: nat, c: nat, g: int)
    requires Joins(run, j, c, g) && NeverLeaves(run, j, c, g) && j < |run| - 1
    ensures var front, a := run[..|run| - 1], run[|run| - 1];
            && Joins(front, j, c, g) && NeverLeaves(front, j, c, g)
            && !(a == LeaveRemove(c) && c in Final(front).tasks && Final(front).tasks[c].leaving == Some(g))
  {
    hide Final;
    var front := run[..|run| - 1];
    assert forall i | 0 <= i <= |front| :: front[..i] == run[..i];
  }

  /**
    In every run without a full queue: a message to a group reaches every client that completed a join of it
    before the message was sent, and did not complete a leave in between.  It is in flight or has been received
    by that client, and just once if no member other than the first has left the group before.
    */
  lemma MemberReceives(run: seq<Action>, j: nat, k: nat, c: nat, g: int)
    requires NeverFull(run) && g > 0 && j < k && Sends(run, k, g)
    requires Joins(run[..k], j, c, g) && NeverLeaves(run[..k], j, c, g)
    ensures var id, s := |Final(run[..k]).msgs|, Final(run);
            && id < |s.msgs|
            && (InFlight(s, id) || multiset(Visits(s.log, id))[c] >= 1)
            && (NoMiddleLeave(run[..k], g) ==> InFlight(s, id) || multiset(Visits(s.log, id))[c] == 1)
  {
    var front, id := run[..k], |Final(run[..k]).msgs|;
    MemberStays(front, j, c, g);
    DistinctMembers(front, g);
    SendStarts(run, k);
    SentSnapshot(run, k, g);
    TargetForEver(run, k + 1, id);
    var x := Final(front).tasks[c].addr;
    OwnerStays(run, k, c, x);
    hide Final, Destination, InFlight, Visits, NeverFull, NeverLeaves, Joins, Sends, NoMiddleLeave, NoDup;
    if !InFlight(Final(run), id) {
      ReceivedAsListed(run, id, c, x);
    }
  }

  lemma ReceivedAsListed(run: seq<Action>, id: nat, c: nat, x: int)
    requires NeverFull(run) && Owns(Final(run), c, x)
    requires id < |Final(run).msgs| && Final(run).msgs[id].to > 0 && !InFlight(Final(run), id)
    requires x in Final(run).msgs[id].snapshot
    ensures multiset(Visits(Final(run).log, id))[c] >= 1
    ensures NoDup(Final(run).msgs[id].snapshot) ==> multiset(Visits(Final(run).log, id))[c] == 1
  {
    hide Final, InFlight, Visits, NeverFull, NoDup;
    DeliveredAsListed(run, id);
    if NoDup(Final(run).msgs[id].snapshot) {
      CountNoDup(Final(run).msgs[id].snapshot, x);
    }
  }

  /** A step puts an address into a group only when its client completes a join. */
  lemma OnlyJoinAdds(s: Sys, a: Action, x: int, g: int)
    requires RegistryInv(s) && x in Destination(Apply(s, a).reg, g) && x !in Destination(s.reg, g)
    ensures a.JoinAdd? && a.client in s.tasks && s.tasks[a.client].joining == Some(g) && s.tasks[a.client].addr == x < 0
  {
    hide Connect, NameGroup, JoinGroup, LeaveGroup, HasGroup, Destination, RemoveIf, ClientsValid, GroupsValid,
      Connected, MembersConnected, DoJoinFind, DoConnect, Pass;
    match a
    case Initialize(c) => if c in s.tasks && c !in s.queues { InitializeGroups(s, c, g); }
    case Reconnect(c) => if c in s.tasks && c in s.queues { ReconnectChangesNothing(s, c); }
    case JoinFind(c, name) => if c in s.tasks { JoinFindKeeps(s, c, name); }
    case JoinAdd(c) =>
      if c in s.tasks && s.tasks[c].joining.Some? {
        JoinGroupKeeps(s.reg, s.tasks[c].joining.value, s.tasks[c].addr, g);
      }
    case LeaveRemove(c) =>
      if c in s.tasks && s.tasks[c].leaving.Some? {
        LeaveChanges(s, c, g);
        RemoveIfMember(Destination(s.reg, g), OtherAddress(s.tasks[c].addr), x);
      }
    case Forward(c) => ForwardRegistry(s, c);
    case _ =>
  }

  lemma MemberOwned(s: Sys, x: int, g: int) returns (c: nat)
    requires FlowInv(s) && g > 0 && x in Destination(s.reg, g)
    ensures Owns(s, c, x)
  {
    assert IsMember(s, x);
    c :| c in s.queues && c in s.tasks && s.tasks[c].addr == x;
  }

  lemma SameOwner(s: Sys, c: nat, d: nat, x: int)
    requires FlowInv(s) && Owns(s, c, x) && Owns(s, d, x)
    ensures c == d
  {
    OwnersDistinct(s, c, d);
  }

  /** Every member of a group has completed a join of it. */
  lemma {:induction false} MemberJoined(run: seq<Action>, c: nat, x: int, g: int) returns (j: nat)
    requires g > 0 && Owns(Final(run), c, x) && x in Destination(Final(run).reg, g)
    ensures Joins(run, j, c, g)
  {
    hide Destination, Apply, FlowInv, LogOk, Owns, Joins;
    if run == [] {
      NoMembers(g);
    } else {
      var front, a := run[..|run| - 1], run[|run| - 1];
      assert run == front + [a];
      EveryRun(front);
      EveryRun(run);
      if x in Destination(Final(front).reg, g) {
        var d := MemberOwned(Final(front), x, g);
        StepKeepsOwner(Final(front), a, d, x);
        SameOwner(Final(run), c, d, x);
        j := MemberJoined(front, c, x, g);
        JoinsLater(front, a, j, c, g);
      } else {
        NewMember(Final(front), a, c, x, g);
        j := |front|;
        hide Final;
        assert run[..j] == front;
        JoinsNow(run, j, c, g);
      }
    }
  }

  lemma NoMembers(g: int)
    requires g > 0
    ensures Destination(Initial().reg, g) == []
  {
  }

  lemma JoinsLater(front: seq<Action>, a: Action, j: nat, c: nat, g: int)
    requires Joins(front, j, c, g)
    ensures Joins(front + [a], j, c, g)
  {
    assert (front + [a])[..j] == front[..j];
  }

  /** The client of a new member has just completed a join. */
  lemma NewMember(s: Sys, a: Action, c: nat, x: int, g: int)
    requires FlowInv(s) && FlowInv(Apply(s, a)) && Owns(Apply(s, a), c, x)
    requires x in Destination(Apply(s, a).reg, g) && x !in Destination(s.reg, g)
    ensures a == JoinAdd(c) && c in s.tasks && c in s.queues && s.tasks[c].joining == Some(g)
  {
    RegistryOf(s);
    hide FlowInv, Apply, Destination, RegistryInv;
    OnlyJoinAdds(s, a, x, g);
    JoinerOwns(s, a.client, x);
    StepKeepsOwner(s, a, a.client, x);
    hide Owns;
    SameOwner(Apply(s, a), c, a.client, x);
    JoinerOwns(s, c, x);
    OwnsIs(s, c, x);
  }

  lemma OwnsIs(s: Sys, c: nat, x: int)
    requires Owns(s, c, x)
    ensures c in s.queues && c in s.tasks && s.tasks[c].addr == x
  {
  }

  lemma JoinerOwns(s: Sys, c: nat, x: int)
    requires RegistryInv(s) && c in s.tasks && s.tasks[c].addr == x < 0
    ensures Owns(s, c, x)
  {
  }

  lemma JoinsNow(run: seq<Action>, j: nat, c: nat, g: int)
    requires j < |run| && run[j] == JoinAdd(c)
    requires var s := Final(run[..j]); c in s.tasks && c in s.queues && s.tasks[c].joining == Some(g)
    ensures Joins(run, j, c, g)
  {
  }

  /** In every run, only clients that completed a join of a group before the send receive a message to it. */
  lemma OnlyMembersReceive(run: seq<Action>, k: nat, c: nat, g: int) returns (j: nat)
    requires g > 0 && Sends(run, k, g) && Event(c, |Final(run[..k]).msgs|) in Final(run).log
    ensures j < k && Joins(run, j, c, g)
  {
    var front, id := run[..k], |Final(run[..k]).msgs|;
    var s := Final(run);
    EveryRun(run);
    EveryRun(front);
    SentSnapshot(run, k, g);
    hide Final, Destination, Visits, FlowInv, LogOk, Owns, Sends;
    var x := ReceiverListed(s, c, id);
    var d := MemberOwned(Final(front), x, g);
    OwnerStays(run, k, d, x);
    SameOwner(s, c, d, x);
    j := MemberJoined(front, c, x, g);
    assert front[..j] == run[..j];
  }

  lemma ReceiverListed(s: Sys, c: nat, id: nat) returns (x: int)
    requires FlowInv(s) && id < |s.msgs| && Event(c, id) in s.log
    ensures x in s.msgs[id].snapshot && Owns(s, c, x)
  {
    hide Visits, RegistryInv, Linear, MsgOk, At, PlaceOk;
    EventCount(s.log, c, id);
    var v, m := Visits(s.log, id), s.msgs[id];
    assert VisitsOk(s, v, m);
    hide FlowInv;
    assert c in v;
    var i :| 0 <= i < |v| && v[i] == c;
    x := m.snapshot[|m.snapshot| - 1 - i];
  }

  // ----- what the conditions above mean

  /** A client that has no message to pass on can send to any valid address. */
  lemma SendSends(run: seq<Action>, c: nat, to: int, more: seq<Action>)
    requires c in Final(run).tasks && Final(run).tasks[c].outgoing.None? && to != INVALID
    ensures Sends(run + [Send(c, to)] + more, |run|, to)
  {
    var all := run + [Send(c, to)] + more;
    hide Apply, Final;
    assert all[|run|] == Send(c, to) && all[..|run|] == run && all[..|run| + 1] == run + [Send(c, to)];
    FinalSnoc(run, Send(c, to));
    SendMakesOne(Final(run), c, to);
  }

  lemma SendMakesOne(s: Sys, c: nat, to: int)
    requires c in s.tasks && s.tasks[c].outgoing.None? && to != INVALID
    ensures |Apply(s, Send(c, to)).msgs| == |s.msgs| + 1
  {
    hide Destination;
  }

  /** Who completes no leave at all never leaves, and where nobody does, no middle member does. */
  lemma NoLeaveNeverLeaves(run: seq<Action>, j: nat, c: nat, g: int)
    requires forall i | j <= i < |run| :: run[i] != LeaveRemove(c)
    ensures NeverLeaves(run, j, c, g)
  {
  }

  lemma {:induction false} NoLeaveSince(run: seq<Action>, k: nat, g: int)
    requires forall i | k <= i < |run| :: !run[i].LeaveRemove?
    ensures NoMiddleLeaveSince(run, k, g)
  {
    if |run| > k {
      NoLeaveSince(run[..|run| - 1], k, g);
    }
  }
}
