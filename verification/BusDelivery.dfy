/**
  Delivery: while no queue is full, a group message that is no longer in flight has been received by every
  client as often as its snapshot lists it, in join order; when that is exactly once.
  */
module BusDelivery {
  import opened Options
  import opened BusRegistry
  import opened BusProtocol
  import opened BusRuns
  import opened BusGroups

  // ----- nothing is lost while queues have room

  /** Client `c` does not meet a full queue when it forwards. */
  predicate HasRoom(s: Sys, a: Action) {
    && a.Forward? && a.client in s.tasks
    && Carried(s.tasks[a.client]).Some? && Carried(s.tasks[a.client]).value < |s.msgs| ==>
      var target := Route(s.reg.clients, s.msgs[Carried(s.tasks[a.client]).value].dest).0;
      target.Some? && target.value in s.queues ==> |s.queues[target.value]| < MESSAGE_QUEUE_LENGTH
  }

  ghost predicate NeverFull(run: seq<Action>) {
    run != [] ==> NeverFull(run[..|run| - 1]) && HasRoom(Final(run[..|run| - 1]), run[|run| - 1])
  }

  ghost predicate InFlight(s: Sys, id: nat) {
    exists p :: At(s, p, id)
  }

  /** The message is in flight, or has used up its list by being received. */
  ghost predicate NotLost(s: Sys, id: nat) {
    id < |s.msgs| && (InFlight(s, id) || |Visits(s.log, id)| == |s.msgs[id].snapshot|)
  }

  /** Every entry of the snapshot is the address of a connected client. */
  ghost predicate Reachable(s: Sys, id: nat) {
    id < |s.msgs| && forall a | a in s.msgs[id].snapshot :: IsMember(s, a)
  }

  /** No group message is lost. */
  ghost predicate NoneLost(s: Sys) {
    forall id | 0 <= id < |s.msgs| && s.msgs[id].to > 0 :: NotLost(s, id)
  }

  lemma StillAt(s: Sys, p: Place, id: nat)
    requires At(s, p, id)
    ensures InFlight(s, id)
  {
  }

  lemma QuietLosesNone(s: Sys, t: Sys, id: nat)
    requires NotLost(s, id) && Quiet(s, t)
    ensures NotLost(t, id)
  {
    hide Visits;
    if InFlight(s, id) {
      var p :| At(s, p, id);
      StillAt(t, p, id);
    }
  }

  /** A message that has just been made waits to be sent on. */
  lemma SentIsInFlight(s: Sys, c: nat, to: int)
    requires c in s.tasks
    ensures InFlight(DoSend(s, c, to), |s.msgs|)
  {
    hide Destination;
    StillAt(DoSend(s, c, to), Outgoing(c), |s.msgs|);
  }

  lemma SendLosesNone(s: Sys, c: nat, to: int, id: nat)
    requires NotLost(s, id) && c in s.tasks && s.tasks[c].outgoing.None?
    ensures NotLost(DoSend(s, c, to), id)
  {
    hide Visits, Destination;
    if InFlight(s, id) {
      var p :| At(s, p, id);
      StillAt(DoSend(s, c, to), p, id);
    }
  }

  lemma ReceiveLosesNone(s: Sys, c: nat, id: nat)
    requires NotLost(s, id)
    requires c in s.tasks && c in s.queues && s.queues[c] != [] && Free(s.tasks[c])
    ensures NotLost(DoReceive(s, c), id)
  {
    var t, m := DoReceive(s, c), s.queues[c][0];
    VisitsSnoc(s.log, Event(c, m), id);
    StillAt(t, Held(c), m);
    if InFlight(s, id) && id != m {
      hide Visits;
      var p :| At(s, p, id);
      var q := if p.Queued? && p.client == c then Queued(c, if p.pos > 0 then p.pos - 1 else 0) else p;
      StillAt(t, q, id);
    }
  }

  lemma ForwardStays(s: Sys, c: nat, m: nat, p: Place, id: nat)
    requires FlowInv(s) && m < |s.msgs| && c in s.tasks && Carried(s.tasks[c]) == Some(m)
    requires At(s, p, id) && p != CarriedPlace(s.tasks[c], c)
    ensures At(DoForward(s, c), p, id)
  {
    assert MsgOk(s, s.msgs[m]);
    ForwardEffect(s, c, m);
    hide DoForward, RegistryInv, MsgOk, Linear;
  }

  /** With room, a message with entries left goes on; without entries it has been received by all. */
  lemma ForwardArrives(s: Sys, c: nat, m: nat)
    requires FlowInv(s) && m < |s.msgs| && c in s.tasks && Carried(s.tasks[c]) == Some(m)
    requires HasRoom(s, Forward(c)) && Reachable(s, m)
    ensures InFlight(DoForward(s, c), m) || |Visits(s.log, m)| == |s.msgs[m].snapshot|
  {
    assert MsgOk(s, s.msgs[m]);
    ForwardEffect(s, c, m);
    CarriedAt(s, c);
    hide DoForward, RegistryInv, MsgOk, Linear, Visits, Reachable;
    if s.msgs[m].dest != [] {
      NextResolves(s, m);
      PassTakesOne(s, m);
      var y := Landing(s, m);
      StillAt(DoForward(s, c), Queued(y.value, |s.queues[y.value]|), m);
    }
  }

  lemma NextResolves(s: Sys, m: nat)
    requires RegistryInv(s) && Reachable(s, m) && MsgOk(s, s.msgs[m]) && s.msgs[m].dest != []
    ensures Route(s.reg.clients, s.msgs[m].dest).0.Some?
  {
    hide ClientsValid, GroupsValid, JoinsFind, MembersConnected;
    var dest := s.msgs[m].dest;
    var next := dest[|dest| - 1];
    assert next == s.msgs[m].snapshot[|dest| - 1];
    assert IsMember(s, next);
    var c :| c in s.queues && c in s.tasks && s.tasks[c].addr == next;
    OwnerResolves(s, c);
  }

  lemma ForwardLosesNone(s: Sys, c: nat, m: nat, id: nat)
    requires FlowInv(s) && m < |s.msgs| && c in s.tasks && Carried(s.tasks[c]) == Some(m)
    requires HasRoom(s, Forward(c)) && Reachable(s, id) && NotLost(s, id)
    ensures NotLost(DoForward(s, c), id)
  {
    var t := DoForward(s, c);
    CarriedAt(s, c);
    ForwardMsg(s, c, m, id);
    hide DoForward, RegistryInv, MsgOk, VisitsOk, At, Visits, HasRoom, Reachable;
    if id == m {
      ForwardArrives(s, c, m);
    } else if InFlight(s, id) {
      var p :| At(s, p, id);
      OnePlaceOneMessage(s, p, id, m);
      ForwardStays(s, c, m, p, id);
      StillAt(t, p, id);
    }
  }

  lemma OnePlaceOneMessage(s: Sys, p: Place, id: nat, m: nat)
    ensures At(s, p, id) && At(s, p, m) ==> id == m
  {
  }

  /** With room, no step loses a message whose whole snapshot is connected. */
  lemma StepLosesNone(s: Sys, a: Action, id: nat)
    requires FlowInv(s) && Reachable(s, id) && NotLost(s, id) && HasRoom(s, a)
    ensures NotLost(Apply(s, a), id)
  {
    hide NotLost, RegistryInv, MsgOk, VisitsOk, Visits, At, HasRoom, Reachable;
    match a
    case Send(c, to) =>
      if c in s.tasks && s.tasks[c].outgoing.None? && to != INVALID { SendLosesNone(s, c, to, id); }
    case Forward(c) =>
      if c in s.tasks && Carried(s.tasks[c]).Some? {
        CarriedAt(s, c);
        ForwardLosesNone(s, c, Carried(s.tasks[c]).value, id);
      }
    case Receive(c) =>
      if c in s.tasks && c in s.queues && s.queues[c] != [] && Free(s.tasks[c]) { ReceiveLosesNone(s, c, id); }
    case _ =>
      QuietStep(s, a);
      QuietLosesNone(s, Apply(s, a), id);
  }

  lemma GroupReachable(s: Sys, id: nat)
    requires FlowInv(s) && id < |s.msgs| && s.msgs[id].to > 0
    ensures Reachable(s, id)
  {
    assert MsgOk(s, s.msgs[id]);
  }

  lemma {:induction false} NeverFullLosesNone(run: seq<Action>)
    requires NeverFull(run)
    ensures NoneLost(Final(run))
  {
    if run != [] {
      var front, a := run[..|run| - 1], run[|run| - 1];
      var s := Final(front);
      NeverFullLosesNone(front);
      EveryRun(front);
      hide FlowInv, Apply, HasRoom, LogOk, NotLost, Reachable, InFlight, Visits;
      forall id | 0 <= id < |Final(run).msgs| && Final(run).msgs[id].to > 0
        ensures NotLost(Final(run), id)
      {
        if id < |s.msgs| {
          SnapshotsStay(s, a, id);
          GroupReachable(s, id);
          StepLosesNone(s, a, id);
        } else {
          NewMessage(s, a, id);
          SentIsInFlight(s, a.client, a.to);
          NewNotLost(Final(run), id);
        }
      }
    }
  }

  lemma NewNotLost(s: Sys, id: nat)
    requires id < |s.msgs| && InFlight(s, id)
    ensures NotLost(s, id)
  {
  }

  // ----- main results

  lemma {:induction false} CountNoDup<T>(v: seq<T>, c: T)
    requires NoDup(v)
    ensures multiset(v)[c] == if c in v then 1 else 0
  {
    if v != [] {
      var front, last := v[..|v| - 1], v[|v| - 1];
      assert v == front + [last];
      CountNoDup(front, c);
    }
  }

  lemma {:induction false} CountTwice<T>(v: seq<T>, i: nat, j: nat)
    requires i < j < |v| && v[i] == v[j]
    ensures multiset(v)[v[i]] >= 2
  {
    var front, last := v[..|v| - 1], v[|v| - 1];
    assert v == front + [last];
    if j < |v| - 1 {
      CountTwice(front, i, j);
    } else {
      assert front[i] in front;
    }
  }

  /** When the receivers own the entries of a list read backwards, each received as often as it is listed. */
  lemma {:induction false} CountListed(s: Sys, v: seq<nat>, list: seq<int>, c: nat)
    requires RegistryInv(s) && c in s.queues && |v| == |list|
    requires forall i | 0 <= i < |v| ::
               v[i] in s.queues && v[i] in s.tasks && s.tasks[v[i]].addr == list[|list| - 1 - i]
    ensures c in s.tasks && multiset(v)[c] == multiset(list)[s.tasks[c].addr]
  {
    hide RegistryInv;
    TasksOfQueues(s);
    if v != [] {
      var front, last := v[..|v| - 1], v[|v| - 1];
      CountListed(s, front, list[1..], c);
      OwnersDistinct(s, c, last);
      assert v == front + [last] && list == [list[0]] + list[1..];
    }
  }

  /**
    In every run without a full queue, leaves included, a group message that is not in flight has been
    received by the owners of the entries of its snapshot in join order: by every client exactly as often
    as the snapshot lists it.
    */
  lemma DeliveredAsListed(run: seq<Action>, id: nat)
    requires NeverFull(run)
    requires id < |Final(run).msgs| && Final(run).msgs[id].to > 0 && !InFlight(Final(run), id)
    ensures var s := Final(run);
            var m, v := s.msgs[id], Visits(s.log, id);
            && |v| == |m.snapshot|
            && (forall i | 0 <= i < |v| ::
                  v[i] in s.tasks && s.tasks[v[i]].addr == m.snapshot[|m.snapshot| - 1 - i])
            && (forall c | c in s.queues ::
                  c in s.tasks && multiset(v)[c] == multiset(m.snapshot)[s.tasks[c].addr])
  {
    hide Final, Apply, At, RegistryInv, MsgOk, Visits, Linear, NoneLost, InFlight;
    var s := Final(run);
    EveryRun(run);
    NeverFullLosesNone(run);
    UseNoneLost(s, id);
    assert VisitsOk(s, Visits(s.log, id), s.msgs[id]);
    forall c | c in s.queues
      ensures c in s.tasks && multiset(Visits(s.log, id))[c] == multiset(s.msgs[id].snapshot)[s.tasks[c].addr]
    {
      CountListed(s, Visits(s.log, id), s.msgs[id].snapshot, c);
    }
  }

  /**
    In every run without a full queue, a group message that is not in flight has been received exactly once
    by every client of its snapshot exactly when the snapshot lists no client twice.
    */
  lemma ExactlyOnceIff(run: seq<Action>, id: nat)
    requires NeverFull(run)
    requires id < |Final(run).msgs| && Final(run).msgs[id].to > 0 && !InFlight(Final(run), id)
    ensures var s := Final(run);
            var m, v := s.msgs[id], Visits(s.log, id);
            NoDup(m.snapshot) <==>
              forall c | c in s.queues && c in s.tasks && s.tasks[c].addr in m.snapshot :: multiset(v)[c] == 1
  {
    hide Final, Apply, At, RegistryInv, Visits, Linear, InFlight;
    DeliveredAsListed(run, id);
    EveryRun(run);
    var s := Final(run);
    var list := s.msgs[id].snapshot;
    assert MsgOk(s, s.msgs[id]);
    if NoDup(list) {
      forall a
        ensures multiset(list)[a] == if a in list then 1 else 0
      {
        CountNoDup(list, a);
      }
    } else {
      hide NoDup;
      var a := Repeated(list);
      assert IsMember(s, a);
      var c :| c in s.queues && c in s.tasks && s.tasks[c].addr == a;
      assert multiset(Visits(s.log, id))[c] == multiset(list)[a];
    }
  }

  lemma Repeated(list: seq<int>) returns (a: int)
    requires !NoDup(list)
    ensures a in list && multiset(list)[a] >= 2
  {
    var i, j :| 0 <= i < j < |list| && list[i] == list[j];
    a := list[i];
    CountTwice(list, i, j);
  }

  /**
    In every run without a full queue, and without a middle leave of the message's group, a group message
    that is not in flight has been received in join order exactly once by each client of its snapshot and
    by no one else.  The snapshot is the group without those who joined after the message was made.
    */
  lemma ExactlyOnce(run: seq<Action>, id: nat)
    requires NeverFull(run)
    requires id < |Final(run).msgs| && Final(run).msgs[id].to > 0 && !InFlight(Final(run), id)
    requires NoMiddleLeave(run, Final(run).msgs[id].to)
    ensures var s := Final(run);
            var m, v := s.msgs[id], Visits(s.log, id);
            && IsSuffix(m.snapshot, Destination(s.reg, m.to))
            && |v| == |m.snapshot|
            && (forall i | 0 <= i < |v| ::
                  v[i] in s.tasks && s.tasks[v[i]].addr == m.snapshot[|m.snapshot| - 1 - i])
            && (forall c | c in s.queues ::
                  c in s.tasks && multiset(v)[c] == if s.tasks[c].addr in m.snapshot then 1 else 0)
  {
    hide Final, Apply, At, RegistryInv, Visits, InFlight, NoMiddleLeave, OnlyOldestRepeats, Destination, NoDup,
      IsSuffix;
    var s := Final(run);
    var list := s.msgs[id].snapshot;
    DeliveredAsListed(run, id);
    GroupInEveryRun(run, s.msgs[id].to);
    SnapshotDistinct(s, id);
    forall a
      ensures multiset(list)[a] == if a in list then 1 else 0
    {
      CountNoDup(list, a);
    }
  }

  lemma UseNoneLost(s: Sys, id: nat)
    requires NoneLost(s) && id < |s.msgs| && s.msgs[id].to > 0 && !InFlight(s, id)
    ensures |Visits(s.log, id)| == |s.msgs[id].snapshot|
  {
  }

  /** Two connected clients have different addresses. */
  lemma OwnersDistinct(s: Sys, c: nat, d: nat)
    requires RegistryInv(s) && c in s.queues && d in s.queues
    ensures c in s.tasks && d in s.tasks
    ensures s.tasks[c].addr == s.tasks[d].addr ==> c == d
  {
    OwnerResolves(s, c);
    OwnerResolves(s, d);
  }
}
